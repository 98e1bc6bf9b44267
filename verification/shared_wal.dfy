/**
 * The WAL shared by the connections of one database
 * (libsql-wal/src/shared_wal.rs), read sequentially: the current log, the
 * sealed segments oldest first, the lock word naming the writing
 * transaction, the transaction id counter, and the database file as a map
 * from page number to page (page p occupies bytes (p - 1) * 4096 up to
 * p * 4096 of the file).
 */
module SharedWal {
  import opened Common
  import opened WalLocking
  import WalLog
  import opened WalTransaction

  /** How upgrading a read transaction ends when it does not panic. */
  datatype Upgrade =
    | Upgraded      // the transaction now writes and holds the lock
    | BusySnapshot  // its snapshot is older than the last commit
    | MustWait      // another transaction holds the lock: the caller parks and retries

  /** The largest unsigned 64-bit value, the bound the segment scan starts from. */
  const U64_MAX: nat := U64_LIMIT - 1

  /** A sealed segment whose index only names frames present in its file,
      each holding a full page. */
  ghost predicate ValidSegment(seg: WalLog.SealedLog)
  {
    (forall p | p in seg.index :: WalLog.IndexEntrySplit(seg.index[p]).1 in seg.frames) &&
    (forall o | o in seg.frames :: |seg.frames[o].prefix| == WalLog.PAGE_SIZE - 8)
  }

  /** The newest frame number the transaction may read. */
  function MaxFrameNo(tx: Transaction): nat
    reads if tx.Write? then {tx.w} else {}
  {
    match tx
    case Write(w) => w.readTx.maxFrameNo
    case Read(r) => r.maxFrameNo
  }

  // ------------------------------------------------------------ segment scan

  /** The scan of `read_from_segments`, newest segment first: each segment's
      last commit must be below the previous one's (starting from `prev`),
      and the first segment that has the page supplies it. */
  function SearchSegments(segs: seq<WalLog.SealedLog>, pageNo: nat, maxFrameNo: nat, prev: nat)
    : Outcome<Option<seq<bv8>>>
    decreases |segs|
  {
    if |segs| == 0 then Returned(None)
    else
      var seg := segs[|segs| - 1];
      var last := seg.header.lastCommitedFrameNo;
      if prev <= last then Panicked(SegmentsOutOfOrder)
      else match seg.ReadPage(pageNo, maxFrameNo)
        case Hit(page) => Returned(Some(page))
        case ReadFailed => Panicked(MissingData)
        case Missing => SearchSegments(segs[..|segs| - 1], pageNo, maxFrameNo, last)
  }

  /** Segments sealed in order: last commits strictly increase from oldest to
      newest and stay below `bound`. */
  predicate Ordered(segs: seq<WalLog.SealedLog>, bound: nat)
  {
    (forall i, j :: 0 <= i < j < |segs| ==> segs[i].header.lastCommitedFrameNo < segs[j].header.lastCommitedFrameNo) &&
    (forall i :: 0 <= i < |segs| ==> segs[i].header.lastCommitedFrameNo < bound)
  }

  /** On segments sealed in order whose reads do not fail, the scan never
      panics, and it finds nothing exactly when no segment has the page for
      the snapshot. */
  lemma {:induction false} SearchNeverPanics(segs: seq<WalLog.SealedLog>, pageNo: nat, maxFrameNo: nat, prev: nat)
    requires Ordered(segs, prev)
    requires forall i :: 0 <= i < |segs| ==> !segs[i].ReadPage(pageNo, maxFrameNo).ReadFailed?
    ensures SearchSegments(segs, pageNo, maxFrameNo, prev).Returned?
    ensures SearchSegments(segs, pageNo, maxFrameNo, prev).value.None? <==>
      forall i :: 0 <= i < |segs| ==> segs[i].ReadPage(pageNo, maxFrameNo).Missing?
    decreases |segs|
  {
    if |segs| > 0 {
      var init := segs[..|segs| - 1];
      assert forall i :: 0 <= i < |init| ==> init[i] == segs[i];
      SearchNeverPanics(init, pageNo, maxFrameNo, segs[|segs| - 1].header.lastCommitedFrameNo);
    }
  }

  /** On segments sealed in order, the scan returns the page from the newest
      segment that has it for the snapshot, when every newer one misses it. */
  lemma {:induction false} SearchFindsNewest(segs: seq<WalLog.SealedLog>, pageNo: nat, maxFrameNo: nat, prev: nat, i: nat)
    requires Ordered(segs, prev)
    requires i < |segs| && segs[i].ReadPage(pageNo, maxFrameNo).Hit?
    requires forall j :: i < j < |segs| ==> segs[j].ReadPage(pageNo, maxFrameNo).Missing?
    ensures SearchSegments(segs, pageNo, maxFrameNo, prev) == Returned(Some(segs[i].ReadPage(pageNo, maxFrameNo).page))
    decreases |segs|
  {
    if i < |segs| - 1 {
      var init := segs[..|segs| - 1];
      assert forall j :: 0 <= j < |init| ==> init[j] == segs[j];
      SearchFindsNewest(init, pageNo, maxFrameNo, segs[|segs| - 1].header.lastCommitedFrameNo, i);
    }
  }

  /** A newest segment that misses the page and whose last commit is not
      above the next one's makes the scan panic. */
  lemma OutOfOrderPanics(segs: seq<WalLog.SealedLog>, pageNo: nat, maxFrameNo: nat)
    requires |segs| >= 2 && segs[|segs| - 1].header.lastCommitedFrameNo < U64_MAX
    requires segs[|segs| - 1].ReadPage(pageNo, maxFrameNo).Missing?
    requires segs[|segs| - 2].header.lastCommitedFrameNo >= segs[|segs| - 1].header.lastCommitedFrameNo
    ensures SearchSegments(segs, pageNo, maxFrameNo, U64_MAX) == Panicked(SegmentsOutOfOrder)
  {
    assert segs[..|segs| - 1][|segs| - 2] == segs[|segs| - 2];
  }

  /** Whether the page read satisfies the snapshot check on the frame number
      in its last 8 bytes. */
  function Checked(page: seq<bv8>, maxFrameNo: nat): (r: Outcome<seq<bv8>>)
    requires |page| == WalLog.PAGE_SIZE
    ensures r.Returned? <==> WalLog.FrameNoOf(page[WalLog.PAGE_SIZE - 8..]) as int <= maxFrameNo
    ensures r.Returned? ==> r.value == page
    ensures r.Panicked? ==> r.panic == FrameAfterSnapshot
  {
    if WalLog.FrameNoOf(page[WalLog.PAGE_SIZE - 8..]) as int <= maxFrameNo then Returned(page)
    else Panicked(FrameAfterSnapshot)
  }

  // ------------------------------------------------------------ checkpoint

  /** The number of leading segments no reader holds. */
  function QuiescentPrefix(segs: seq<WalLog.SealedLog>): (n: nat)
    ensures n <= |segs|
    ensures forall i :: 0 <= i < n ==> segs[i].readLocks == 0
    ensures n < |segs| ==> segs[n].readLocks != 0
  {
    if |segs| == 0 || segs[0].readLocks != 0 then 0 else 1 + QuiescentPrefix(segs[1..])
  }

  /** The pages some segment of `segs` holds. */
  function UnionKeys(segs: seq<WalLog.SealedLog>): set<nat>
    decreases |segs|
  {
    if |segs| == 0 then {} else UnionKeys(segs[..|segs| - 1]) + segs[|segs| - 1].index.Keys
  }

  /** A page is in the union exactly when some segment holds it. */
  lemma {:induction false} UnionKeysHeld(segs: seq<WalLog.SealedLog>, pageNo: nat)
    ensures pageNo in UnionKeys(segs) <==> exists i :: 0 <= i < |segs| && pageNo in segs[i].index
    decreases |segs|
  {
    if |segs| > 0 {
      var init := segs[..|segs| - 1];
      assert forall i :: 0 <= i < |init| ==> init[i] == segs[i];
      UnionKeysHeld(init, pageNo);
    }
  }

  /** The position of the newest segment of `segs` holding `pageNo`. */
  function Newest(segs: seq<WalLog.SealedLog>, pageNo: nat): (i: nat)
    requires pageNo in UnionKeys(segs)
    ensures i < |segs| && pageNo in segs[i].index
    ensures forall j :: i < j < |segs| ==> pageNo !in segs[j].index
    decreases |segs|
  {
    if pageNo in segs[|segs| - 1].index then |segs| - 1
    else Newest(segs[..|segs| - 1], pageNo)
  }

  /** The page the checkpoint writes for `pageNo`: the frame of the newest segment holding it. */
  function Winner(segs: seq<WalLog.SealedLog>, pageNo: nat): (page: seq<bv8>)
    requires pageNo in UnionKeys(segs) && forall i :: 0 <= i < |segs| ==> ValidSegment(segs[i])
    ensures |page| == WalLog.PAGE_SIZE
  {
    var seg := segs[Newest(segs, pageNo)];
    assert ValidSegment(seg);
    var f := seg.frames[WalLog.IndexEntrySplit(seg.index[pageNo]).1];
    WalLog.FrameDataReadsBack(f);
    f.Data()
  }

  /** The page every page of the union takes when `segs` is folded. */
  function Winners(segs: seq<WalLog.SealedLog>): (w: map<nat, seq<bv8>>)
    requires forall i :: 0 <= i < |segs| ==> ValidSegment(segs[i])
    ensures w.Keys == UnionKeys(segs)
    ensures forall p | p in w :: |w[p]| == WalLog.PAGE_SIZE
  {
    map p | p in UnionKeys(segs) :: Winner(segs, p)
  }

  /** The database file `db'` after writing the pages `pages` of `winners`
      into `db`: each of them holds its winning page, every other page is as
      it was. */
  ghost predicate PartlyFolded(db: map<nat, seq<bv8>>, winners: map<nat, seq<bv8>>, pages: set<nat>,
                               db': map<nat, seq<bv8>>)
  {
    (forall p | p in pages :: p in winners && p in db' && db'[p] == winners[p]) &&
    (forall p :: p in db' <==> p in db || p in pages) &&
    (forall p | p in db && p !in pages :: db'[p] == db[p])
  }

  /** The database file after folding all of `segs` into `db`. */
  ghost predicate Folded(db: map<nat, seq<bv8>>, segs: seq<WalLog.SealedLog>, db': map<nat, seq<bv8>>)
    requires forall i :: 0 <= i < |segs| ==> ValidSegment(segs[i])
  {
    PartlyFolded(db, Winners(segs), UnionKeys(segs), db')
  }

  /** What a checkpoint does to the segments and the database file: nothing if
      the oldest segment has a reader; otherwise the quiescent prefix is folded
      into the file and removed, the rest keeping their order. */
  ghost predicate Checkpointed(segs: seq<WalLog.SealedLog>, db: map<nat, seq<bv8>>,
                               segs': seq<WalLog.SealedLog>, db': map<nat, seq<bv8>>)
    requires forall i :: 0 <= i < |segs| ==> ValidSegment(segs[i])
  {
    var n := QuiescentPrefix(segs);
    (n == 0 ==> segs' == segs && db' == db) &&
    (n > 0 ==> segs' == segs[n..] && Folded(db, segs[..n], db'))
  }

  /** The shared WAL. The current log is fixed here: replacing it when it grows
      goes through a registry that is not part of this model. */
  class SharedWal {
    const current: WalLog.Log
    var segments: seq<WalLog.SealedLog>
    const lock: WalLock
    var nextTxId: nat
    var dbFile: map<nat, seq<bv8>>

    /** A WAL over `current` with no sealed segments yet, over a database file
        made of whole pages; it is ready for reads, insertions and checkpoints. */
    constructor (current: WalLog.Log, lock: WalLock, dbFile: map<nat, seq<bv8>>)
      requires forall p | p in dbFile :: |dbFile[p]| == WalLog.PAGE_SIZE
      ensures this.current == current && this.lock == lock && this.dbFile == dbFile
      ensures segments == [] && nextTxId == 0
      ensures Valid()
    {
      this.current := current;
      this.lock := lock;
      this.dbFile := dbFile;
      segments := [];
      nextTxId := 0;
    }

    ghost predicate Valid()
      reads this
    {
      nextTxId < U64_LIMIT &&
      (forall i :: 0 <= i < |segments| ==> ValidSegment(segments[i])) &&
      (forall p | p in dbFile :: |dbFile[p]| == WalLog.PAGE_SIZE)
    }

    /**
     * Turns the read transaction `tx` into a write transaction when nobody
     * holds the lock and its snapshot ends at the current log's last commit.
     * `framesInLog` is the number of frames the current log holds.
     */
    method Upgrade(tx: Transaction, framesInLog: nat) returns (r: Outcome<Upgrade>, tx': Transaction)
      requires current.header.startFrameNo >= 1 && Valid()
      modifies this`nextTxId, lock`txId
      ensures Valid()
      ensures tx.Write? ==> r == Panicked(UpgradeOfWrite)
      ensures tx.Read? && old(lock.txId).Some? ==> r == Returned(MustWait)
      ensures (tx.Write? || old(lock.txId).Some?) ==> tx' == tx && unchanged(this, lock)
      ensures tx.Read? && old(lock.txId) == None ==> nextTxId == WrappingAddU64(old(nextTxId), 1)
      ensures (tx.Read? && old(lock.txId) == None && tx.r.maxFrameNo != current.header.LastCommitted()) ==>
        r == Returned(BusySnapshot) && tx' == tx && lock.txId == None
      ensures r == Returned(Upgraded) <==>
        tx.Read? && old(lock.txId) == None && tx.r.maxFrameNo == current.header.LastCommitted()
      ensures r == Returned(Upgraded) ==>
        var next := current.header.LastCommitted() + 1;
        lock.txId == Some(old(nextTxId)) && tx'.Write? && fresh(tx'.w) &&
        tx'.w.id == old(nextTxId) && tx'.w.walLock == lock &&
        tx'.w.savepoints == [Savepoint(framesInLog % U32_LIMIT, next, None)] &&
        tx'.w.nextFrameNo == next && tx'.w.nextOffset == framesInLog % U32_LIMIT &&
        !tx'.w.isCommited && tx'.w.readTx == tx.r
      ensures r == Returned(Upgraded) && old(nextTxId) < U64_MAX ==> tx'.w.id < nextTxId
    {
      match tx {
        case Write(_) =>
          return Panicked(UpgradeOfWrite), tx;
        case Read(readTx) =>
          if lock.txId.Some? {
            return Returned(MustWait), tx;
          }
          var id := nextTxId;
          nextTxId := WrappingAddU64(nextTxId, 1);
          var lastCommited := current.header.LastCommitted();
          if readTx.maxFrameNo != lastCommited {
            return Returned(BusySnapshot), tx;
          }
          var nextOffset := framesInLog % U32_LIMIT;
          lock.txId := Some(id);
          var w := new WriteTransaction(id, lock, [Savepoint(nextOffset, lastCommited + 1, None)],
                                        lastCommited + 1, nextOffset, readTx);
          return Returned(Upgraded), Write(w);
      }
    }

    /** Looks `pageNo` up in the sealed segments, newest first. */
    method ReadFromSegments(pageNo: nat, maxFrameNo: nat) returns (r: Outcome<Option<seq<bv8>>>)
      ensures r == SearchSegments(segments, pageNo, maxFrameNo, U64_MAX)
    {
      var prev := U64_MAX;
      var i := |segments|;
      while i > 0
        invariant 0 <= i <= |segments| && segments[..|segments|] == segments
        invariant SearchSegments(segments, pageNo, maxFrameNo, U64_MAX) ==
          SearchSegments(segments[..i], pageNo, maxFrameNo, prev)
      {
        assert segments[..i][..i - 1] == segments[..i - 1];
        var seg := segments[i - 1];
        var last := seg.header.lastCommitedFrameNo;
        if prev <= last {
          return Panicked(SegmentsOutOfOrder);
        }
        prev := last;
        var read := seg.ReadPage(pageNo, maxFrameNo);
        if read.Hit? {
          return Returned(Some(read.page));
        } else if read.ReadFailed? {
          return Panicked(MissingData);
        }
        i := i - 1;
      }
      return Returned(None);
    }

    /**
     * Reads page `pageNo` for `tx`: from the current log if it has the page
     * for this transaction (`fromLog`), else from the newest segment that has
     * it, else from the database file; the frame number in the page's last 8
     * bytes must not be newer than the transaction's snapshot. Reading page 0
     * from the database file panics: its offset `(0 - 1) * 4096` overflows.
     */
    method ReadFrame(tx: Transaction, pageNo: nat, fromLog: Option<seq<bv8>>) returns (r: Outcome<seq<bv8>>)
      requires Valid()
      requires fromLog.Some? ==> |fromLog.value| == WalLog.PAGE_SIZE
      ensures fromLog.Some? ==> r == Checked(fromLog.value, MaxFrameNo(tx))
      ensures fromLog.None? ==>
        match SearchSegments(segments, pageNo, MaxFrameNo(tx), U64_MAX)
        case Panicked(p) => r == Panicked(p)
        case Returned(Some(page)) => |page| == WalLog.PAGE_SIZE && r == Checked(page, MaxFrameNo(tx))
        case Returned(None) =>
          if pageNo == 0 then r == Panicked(PageZero)
          else if pageNo in dbFile then r == Checked(dbFile[pageNo], MaxFrameNo(tx))
          else r == Panicked(MissingData)
    {
      var page: seq<bv8>;
      if fromLog.Some? {
        page := fromLog.value;
      } else {
        var found := ReadFromSegments(pageNo, MaxFrameNo(tx));
        if found.Panicked? {
          return Panicked(found.panic);
        }
        if found.value.Some? {
          SegmentPagesFull(segments, pageNo, MaxFrameNo(tx), U64_MAX);
          page := found.value.value;
        } else if pageNo == 0 {
          return Panicked(PageZero);
        } else if pageNo in dbFile {
          page := dbFile[pageNo];
        } else {
          return Panicked(MissingData);
        }
      }
      return Checked(page, MaxFrameNo(tx));
    }

    /** Writes one page into the database file. */
    method WritePage(pageNo: nat, page: seq<bv8>)
      modifies this`dbFile
      ensures dbFile == old(dbFile)[pageNo := page]
    {
      dbFile := dbFile[pageNo := page];
    }

    /** Writes every page of `winners` into the database file. */
    method WritePages(winners: map<nat, seq<bv8>>)
      modifies this`dbFile
      ensures PartlyFolded(old(dbFile), winners, winners.Keys, dbFile)
    {
      var pending := winners.Keys;
      ghost var written: set<nat> := {};
      while pending != {}
        invariant pending + written == winners.Keys && pending !! written
        invariant PartlyFolded(old(dbFile), winners, written, dbFile)
        decreases |pending|
      {
        var p :| p in pending;
        WritePage(p, winners[p]);
        pending := pending - {p};
        written := written + {p};
      }
    }

    /**
     * Folds the leading segments that no reader holds into the database file,
     * each page taking the frame of the newest of them that has it, then
     * drops those segments.
     */
    method Checkpoint() returns (r: Outcome<()>)
      requires Valid()
      modifies this`segments, this`dbFile
      ensures r.Panicked? <==> 0 in UnionKeys(old(segments)[..QuiescentPrefix(old(segments))])
      ensures r.Panicked? ==> r.panic == PageZero && segments == old(segments) && dbFile == old(dbFile)
      ensures r.Returned? ==> Checkpointed(old(segments), old(dbFile), segments, dbFile)
      ensures Valid()
    {
      var n := QuiescentPrefix(segments);
      if n == 0 {
        return Returned(());
      }
      var winners := Winners(segments[..n]);
      if 0 in winners {
        // the union yields pages in ascending order, so page 0 comes first
        // and panics before any page is written
        return Panicked(PageZero);
      }
      WritePages(winners);
      segments := segments[n..];
      return Returned(());
    }

    /**
     * Appends `pages` to the current log for the write transaction `tx`; a
     * nonzero `sizeAfter` (the database size in pages) makes the batch a
     * commit; the current log changes as `InsertPages` states. Once the
     * insertion returns, more than 10 sealed segments trigger a checkpoint,
     * whose panic on page 0 is the call's.
     */
    method InsertFrames(pages: seq<(nat, seq<bv8>)>, sizeAfter: nat, tx: WalLog.WriteTransaction,
                        merge: (seq<map<nat, WalLog.Offset>>, map<nat, seq<WalLog.Offset>>) -> map<nat, seq<WalLog.Offset>>)
      returns (r: Outcome<()>)
      requires Valid()
      requires 1 <= tx.nextFrameNo && tx.nextFrameNo + |pages| <= U64_LIMIT
      requires tx.nextOffset + |pages| <= U32_LIMIT
      modifies current, current.index, tx, this`segments, this`dbFile
      ensures current.sealed == old(current.sealed) && current.readLocks == old(current.readLocks)
      ensures current.index.startFrameNo == old(current.index.startFrameNo)
      ensures old(current.sealed) ==> r == Panicked(AlreadySealed)
      ensures !old(current.sealed) && EnterGuard(old(tx.isCommited), tx.id, old(tx.lock.txId)).Some? ==>
        r == Panicked(EnterGuard(old(tx.isCommited), tx.id, old(tx.lock.txId)).value)
      ensures (!old(current.sealed) && EnterGuard(old(tx.isCommited), tx.id, old(tx.lock.txId)).None? &&
        old(tx.savepoints) == []) ==> r == Panicked(NoSavepoint)
      ensures r.Panicked? && r.panic != ShortPage && r.panic != PageZero ==> unchanged(current, current.index, tx)
      ensures r == Panicked(ShortPage) <==>
        !old(current.sealed) && EnterGuard(old(tx.isCommited), tx.id, old(tx.lock.txId)).None? && old(tx.savepoints) != [] &&
        !WalLog.PagesFit(pages)
      ensures r == Panicked(ShortPage) ==>
        current.header == old(current.header) && current.index.index == old(current.index.index) &&
        tx.isCommited == old(tx.isCommited)
      ensures (r.Returned? || r == Panicked(PageZero)) <==>
        !old(current.sealed) && EnterGuard(old(tx.isCommited), tx.id, old(tx.lock.txId)).None? && old(tx.savepoints) != [] &&
        WalLog.PagesFit(pages)
      ensures r == Panicked(PageZero) <==>
        !old(current.sealed) && EnterGuard(old(tx.isCommited), tx.id, old(tx.lock.txId)).None? && old(tx.savepoints) != [] &&
        WalLog.PagesFit(pages) && |old(segments)| > 10 && 0 in UnionKeys(old(segments)[..QuiescentPrefix(old(segments))])
      ensures (r.Returned? || r == Panicked(ShortPage) || r == Panicked(PageZero)) ==>
        tx.nextFrameNo == old(tx.nextFrameNo) + WalLog.FullPrefix(pages) &&
        tx.nextOffset == old(tx.nextOffset) + WalLog.FullPrefix(pages)
      ensures (r.Returned? || r == Panicked(ShortPage) || r == Panicked(PageZero)) ==>
        current.frames == WalLog.Written(old(current.frames), pages, if sizeAfter != 0 then Some(sizeAfter) else None,
                                         old(tx.nextOffset), old(tx.nextFrameNo), WalLog.FullPrefix(pages))
      ensures (r.Returned? || r == Panicked(ShortPage) || r == Panicked(PageZero)) ==>
        var last := |old(tx.savepoints)| - 1;
        tx.savepoints == old(tx.savepoints)[last := WalLog.Recorded(old(tx.savepoints)[last], pages, old(tx.nextOffset),
                                                                   WalLog.FullPrefix(pages))]
      ensures (WalLog.Numbered(current.index.startFrameNo, old(current.frames)) &&
               old(tx.nextFrameNo) == current.index.startFrameNo + old(tx.nextOffset)) ==>
        WalLog.Numbered(current.index.startFrameNo, current.frames) &&
        tx.nextFrameNo == current.index.startFrameNo + tx.nextOffset
      ensures (r.Returned? || r == Panicked(PageZero)) ==> tx.isCommited == (old(tx.isCommited) || sizeAfter != 0)
      ensures (r.Returned? || r == Panicked(PageZero)) ==>
        current.header == (if sizeAfter != 0 && WalLog.AnyRecorded(tx.savepoints)
                           then old(current.header).(lastCommitedFrameNo := tx.nextFrameNo - 1, dbSize := sizeAfter)
                           else old(current.header))
      ensures (r.Returned? || r == Panicked(PageZero)) ==>
        current.index.index == (if sizeAfter != 0 && WalLog.AnyRecorded(tx.savepoints)
                                then merge(WalLog.NewestFirst(tx.savepoints), old(current.index.index))
                                else old(current.index.index))
      ensures r.Returned? && |old(segments)| > 10 ==> Checkpointed(old(segments), old(dbFile), segments, dbFile)
      ensures !(r.Returned? && |old(segments)| > 10) ==> segments == old(segments) && dbFile == old(dbFile)
      ensures Valid()
    {
      r := current.InsertPages(pages, if sizeAfter != 0 then Some(sizeAfter) else None, tx, merge);
      if r.Panicked? {
        return;
      }
      if |segments| > 10 {
        r := Checkpoint();
      }
    }
  }

  /** Pages kept by valid segments are full pages. */
  lemma {:induction false} SegmentPagesFull(segs: seq<WalLog.SealedLog>, pageNo: nat, maxFrameNo: nat, prev: nat)
    requires forall i :: 0 <= i < |segs| ==> ValidSegment(segs[i])
    requires SearchSegments(segs, pageNo, maxFrameNo, prev).Returned?
    requires SearchSegments(segs, pageNo, maxFrameNo, prev).value.Some?
    ensures |SearchSegments(segs, pageNo, maxFrameNo, prev).value.value| == WalLog.PAGE_SIZE
    decreases |segs|
  {
    var seg := segs[|segs| - 1];
    var read := seg.ReadPage(pageNo, maxFrameNo);
    if read.Hit? {
      WalLog.FrameDataReadsBack(seg.frames[WalLog.IndexEntrySplit(seg.index[pageNo]).1]);
    } else {
      SegmentPagesFull(segs[..|segs| - 1], pageNo, maxFrameNo, seg.header.lastCommitedFrameNo);
    }
  }
}
