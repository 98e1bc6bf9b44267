/**
 * One log file of the write-ahead log (libsql-wal/src/log.rs): its header and
 * frame-number arithmetic, the layout of frames in the file, the per-page
 * index of frame offsets, appending the pages of a write transaction, and
 * sealing the log into an immutable segment. The file is a map from frame
 * offset to frame; the header is a field.
 */
module WalLog {
  import opened Common
  import opened WalLocking

  /** Bytes of one database page. */
  const PAGE_SIZE: nat := 4096
  /** Bytes of a frame header: page number and size-after, 4 bytes each. */
  const FRAME_HEADER_SIZE: nat := 8
  /** Bytes of a frame: its header followed by one page. */
  const FRAME_SIZE: nat := FRAME_HEADER_SIZE + PAGE_SIZE
  /** Bytes of the log header: five unaligned little-endian fields, 8 + 8 + 4 + 8 + 8. */
  const LOG_HEADER_SIZE: nat := 36

  /** A frame offset within one log: the source stores them as `u32`. */
  type Offset = o: nat | o < U32_LIMIT

  // ---------------------------------------------------------------- header

  /** The header at the start of a log file. `lastCommitedFrameNo` is 0 while the log holds no commit. */
  datatype LogHeader = LogHeader(
    startFrameNo: nat,
    lastCommitedFrameNo: nat,
    dbSize: nat,
    indexOffset: nat,
    indexSize: nat)
  {
    predicate IsEmpty()
    {
      lastCommitedFrameNo == 0
    }

    /** Frames committed to this log: the last committed frame number less
        `startFrameNo - 1`, or 0 when that subtraction would go below zero. */
    function CountCommitted(): (r: nat)
      requires startFrameNo >= 1
      ensures r == 0 <==> lastCommitedFrameNo < startFrameNo
      ensures r > 0 ==> lastCommitedFrameNo == startFrameNo + r - 1
      ensures IsEmpty() ==> r == 0
    {
      if lastCommitedFrameNo >= startFrameNo - 1 then lastCommitedFrameNo - (startFrameNo - 1) else 0
    }

    /** The last frame number committed to the whole WAL as far as this log
        knows: the one before its first frame while it is empty. */
    function LastCommitted(): (r: nat)
      requires startFrameNo >= 1
      ensures IsEmpty() ==> r + 1 == startFrameNo
      ensures CountCommitted() > 0 ==> r == startFrameNo - 1 + CountCommitted()
    {
      if IsEmpty() then startFrameNo - 1 else lastCommitedFrameNo
    }

    /** The frame number the next committed frame gets; never zero. */
    function NextFrameNo(): (r: nat)
      requires startFrameNo >= 1
      ensures r >= 1
      ensures r == LastCommitted() + 1
    {
      if IsEmpty() then startFrameNo else lastCommitedFrameNo + 1
    }
  }

  // ----------------------------------------------------------- index entries

  /** Splits a 64-bit index entry into (frame number, offset): the high and
      the low 32 bits, that is `k >> 32` and `k & 0xFFFF_FFFF` of an unsigned value. */
  function IndexEntrySplit(k: U64): (r: (Offset, Offset))
    ensures r.0 * U32_LIMIT + r.1 == k
  {
    (k / U32_LIMIT, k % U32_LIMIT)
  }

  /** Splitting the entry `(f << 32) | o` gives back `f` and `o`. */
  lemma IndexEntryRoundTrip(f: Offset, o: Offset)
    ensures f * U32_LIMIT + o < U64_LIMIT
    ensures IndexEntrySplit(f * U32_LIMIT + o) == (f, o)
  {
    var r := IndexEntrySplit(f * U32_LIMIT + o);
    assert (r.0 - f) * U32_LIMIT == o - r.1;
  }

  // ----------------------------------------------------------- file layout

  /** Byte position of the frame at `offset`: after the log header, frames back to back. */
  function ByteOffset(offset: nat): nat
  {
    LOG_HEADER_SIZE + offset * FRAME_SIZE
  }

  /** Byte position of the page held by the frame at `offset`: after its frame header. */
  function PageOffset(offset: nat): nat
  {
    ByteOffset(offset) + FRAME_HEADER_SIZE
  }

  /** The first frame starts right after the log header, each page fills its
      frame up to the next frame, and frames at distinct offsets do not overlap. */
  lemma {:induction false} FrameLayout(o1: nat, o2: nat)
    ensures ByteOffset(0) == LOG_HEADER_SIZE
    ensures ByteOffset(o1) < PageOffset(o1)
    ensures PageOffset(o1) + PAGE_SIZE == ByteOffset(o1 + 1)
    ensures o1 < o2 ==> ByteOffset(o1) + FRAME_SIZE <= ByteOffset(o2)
  {
    assert (o1 + 1) * FRAME_SIZE == o1 * FRAME_SIZE + FRAME_SIZE;
    if o1 < o2 {
      assert o2 * FRAME_SIZE == (o1 + 1) * FRAME_SIZE + (o2 - o1 - 1) * FRAME_SIZE;
    }
  }

  // ------------------------------------------------------------ frames

  /** The page number a frame belongs to and, on the last frame of a commit,
      the database size in pages after that commit (0 elsewhere). */
  datatype FrameHeader = FrameHeader(pageNo: nat, sizeAfter: nat)

  /** A frame: its header, the first 4088 bytes of the page and the frame
      number, which the stored page carries in its last 8 bytes. */
  datatype Frame = Frame(header: FrameHeader, prefix: seq<bv8>, frameNo: U64)
  {
    /** The 4096 bytes of page the file holds after the frame header. */
    function Data(): seq<bv8>
    {
      prefix + FrameNoBytes(frameNo as bv64)
    }
  }

  /** A frame number in big-endian byte order. */
  function FrameNoBytes(n: bv64): (r: seq<bv8>)
    ensures |r| == 8
  {
    [(n >> 56) as bv8, ((n >> 48) & 0xFF) as bv8, ((n >> 40) & 0xFF) as bv8, ((n >> 32) & 0xFF) as bv8,
     ((n >> 24) & 0xFF) as bv8, ((n >> 16) & 0xFF) as bv8, ((n >> 8) & 0xFF) as bv8, (n & 0xFF) as bv8]
  }

  /** The frame number stored big-endian in 8 bytes. */
  function FrameNoOf(b: seq<bv8>): bv64
    requires |b| == 8
  {
    ((b[0] as bv64) << 56) | ((b[1] as bv64) << 48) | ((b[2] as bv64) << 40) | ((b[3] as bv64) << 32) |
    ((b[4] as bv64) << 24) | ((b[5] as bv64) << 16) | ((b[6] as bv64) << 8) | (b[7] as bv64)
  }

  /** Reading the 8 bytes back gives the frame number written. */
  lemma FrameNoRoundTrip(n: bv64)
    ensures FrameNoOf(FrameNoBytes(n)) == n
  {
  }

  /** The frame written for page `pageNo` with contents `page`: the first 4088
      bytes of the page followed by the frame number. */
  function FrameFor(pageNo: nat, page: seq<bv8>, sizeAfter: nat, frameNo: U64): (f: Frame)
    requires |page| >= PAGE_SIZE - 8
  {
    Frame(FrameHeader(pageNo, sizeAfter), page[..PAGE_SIZE - 8], frameNo)
  }

  /** The stored page of a frame reads back as the page prefix followed by the
      frame number, big-endian, in its last 8 bytes. */
  lemma FrameDataReadsBack(f: Frame)
    requires |f.prefix| == PAGE_SIZE - 8
    ensures |f.Data()| == PAGE_SIZE
    ensures f.Data()[..PAGE_SIZE - 8] == f.prefix
    ensures FrameNoOf(f.Data()[PAGE_SIZE - 8..]) == f.frameNo as bv64
  {
    assert f.Data()[PAGE_SIZE - 8..] == FrameNoBytes(f.frameNo as bv64);
    FrameNoRoundTrip(f.frameNo as bv64);
  }

  // ------------------------------------------------------------ log index

  /** The newest offset in `offsets` whose frame number `start + offset` is at
      most `maxFrameNo`. */
  function Latest(offsets: seq<Offset>, start: nat, maxFrameNo: nat): (r: Option<Offset>)
    ensures r.Some? ==> r.value in offsets && start + r.value <= maxFrameNo
    decreases |offsets|
  {
    if |offsets| == 0 then None
    else if start + offsets[|offsets| - 1] <= maxFrameNo then Some(offsets[|offsets| - 1])
    else Latest(offsets[..|offsets| - 1], start, maxFrameNo)
  }

  /** `Latest` finds nothing exactly when every recorded frame is too new. */
  lemma {:induction false} LatestNoneIffTooNew(offsets: seq<Offset>, start: nat, maxFrameNo: nat)
    ensures Latest(offsets, start, maxFrameNo).None? <==>
      forall i :: 0 <= i < |offsets| ==> start + offsets[i] > maxFrameNo
    decreases |offsets|
  {
    if |offsets| > 0 {
      var init := offsets[..|offsets| - 1];
      assert forall i :: 0 <= i < |init| ==> offsets[i] == init[i];
      LatestNoneIffTooNew(init, start, maxFrameNo);
    }
  }

  /** `Latest` returns the last recorded offset whose frame is within the
      snapshot. */
  lemma {:induction false} LatestIsLastWithin(offsets: seq<Offset>, start: nat, maxFrameNo: nat, i: nat)
    requires i < |offsets| && start + offsets[i] <= maxFrameNo
    requires forall j :: i < j < |offsets| ==> start + offsets[j] > maxFrameNo
    ensures Latest(offsets, start, maxFrameNo) == Some(offsets[i])
    decreases |offsets|
  {
    if i < |offsets| - 1 {
      var init := offsets[..|offsets| - 1];
      assert forall j :: 0 <= j < |init| ==> offsets[j] == init[j];
      LatestIsLastWithin(init, start, maxFrameNo, i);
    }
  }

  /** The page index of a log: for each page, the offsets of its frames in the
      order they were recorded. Frame `o` of a log starting at frame `s` is frame
      number `s + o`. */
  class LogIndex {
    var startFrameNo: nat
    var index: map<nat, seq<Offset>>

    /** An empty index with the default start frame number 0. */
    constructor Default()
      ensures startFrameNo == 0 && index == map[]
    {
      startFrameNo := 0;
      index := map[];
    }

    /** An empty index for a log whose first frame is `start`. */
    constructor Starting(start: nat)
      ensures startFrameNo == start && index == map[]
    {
      startFrameNo := start;
      index := map[];
    }

    /** The newest recorded frame of `pageNo` that is not newer than `maxFrameNo`. */
    method Locate(pageNo: nat, maxFrameNo: nat) returns (r: Option<Offset>)
      ensures pageNo !in index ==> r == None
      ensures pageNo in index ==> r == Latest(index[pageNo], startFrameNo, maxFrameNo)
    {
      if pageNo !in index {
        return None;
      }
      var offsets := index[pageNo];
      var i := |offsets|;
      while i > 0
        invariant 0 <= i <= |offsets| && offsets[..|offsets|] == offsets
        invariant Latest(offsets, startFrameNo, maxFrameNo) == Latest(offsets[..i], startFrameNo, maxFrameNo)
      {
        assert offsets[..i][..i - 1] == offsets[..i - 1];
        if startFrameNo + offsets[i - 1] <= maxFrameNo {
          return Some(offsets[i - 1]);
        }
        i := i - 1;
      }
      return None;
    }

    /** Every page recorded in the index has at least one offset. */
    predicate Valid()
      reads this
    {
      forall p | p in index :: |index[p]| > 0
    }

    /** The merged index written when the log is sealed: each page maps to its
        last recorded offset only. */
    function MergeAll(): (m: map<nat, Offset>)
      requires Valid()
      reads this
      ensures m.Keys == index.Keys
    {
      map p | p in index :: index[p][|index[p]| - 1]
    }
  }

  /** "Last entry wins": for any snapshot that includes the newest frame of a
      page, locating the page finds the offset the merged index keeps. */
  lemma MergeAllIsLatest(idx: LogIndex, pageNo: nat, maxFrameNo: nat)
    requires idx.Valid() && pageNo in idx.index
    requires idx.startFrameNo + idx.MergeAll()[pageNo] <= maxFrameNo
    ensures Latest(idx.index[pageNo], idx.startFrameNo, maxFrameNo) == Some(idx.MergeAll()[pageNo])
  {
  }

  /** The frames of a log whose first frame is `start`: the frame stored at
      offset `o` carries frame number `start + o`. */
  ghost predicate Numbered(start: nat, frames: map<nat, Frame>)
  {
    forall o | o in frames :: frames[o].frameNo == start + o
  }

  /** A log index that starts at frame 0, as `Log::create` builds it with
      `LogIndex::default()`, lets a reader of a log starting at frame 1 see a
      frame newer than its snapshot: page 1 written at offsets 0 and 1 (frames 1
      and 2), reader snapshot at frame 1, yet the offset found holds frame 2. */
  method DefaultIndexSeesNewerFrame(frames: map<nat, Frame>) returns (found: Option<Offset>)
    requires Numbered(1, frames) && 0 in frames && 1 in frames
    ensures found == Some(1) && found.value in frames
    ensures frames[found.value].frameNo == 2 > 1
  {
    var idx := new LogIndex.Default();
    idx.index := idx.index[1 := [0, 1]];
    found := idx.Locate(1, 1);
  }

  /** With the index started at the first frame of the log whose frames it
      names, a located offset holds a frame inside the snapshot, and nothing is
      located exactly when every recorded frame of the page is newer than it. */
  lemma {:induction false} LocateWithinSnapshot(offsets: seq<Offset>, start: nat, frames: map<nat, Frame>, maxFrameNo: nat)
    requires Numbered(start, frames) && forall i :: 0 <= i < |offsets| ==> offsets[i] in frames
    ensures Latest(offsets, start, maxFrameNo).Some? ==>
      Latest(offsets, start, maxFrameNo).value in frames &&
      frames[Latest(offsets, start, maxFrameNo).value].frameNo <= maxFrameNo
    ensures Latest(offsets, start, maxFrameNo).None? <==>
      forall i :: 0 <= i < |offsets| ==> frames[offsets[i]].frameNo > maxFrameNo
  {
    LatestNoneIffTooNew(offsets, start, maxFrameNo);
  }

  // ------------------------------------------------------- write transaction

  /**
   * The write transaction of transaction.rs in the shape log.rs uses when it
   * appends pages: its id and the lock, the stack of savepoints (each a map
   * from page number to the bare offset of its newest frame, as log.rs inserts
   * it), the counters, and whether it committed. `WalTransaction.WriteTransaction`
   * is the same Rust struct in the shape transaction.rs reads, with 64-bit index
   * entries and the counters saved in each savepoint.
   */
  class WriteTransaction {
    const id: nat
    const lock: WalLock
    var savepoints: seq<map<nat, Offset>>
    var nextFrameNo: nat
    var nextOffset: nat
    var isCommited: bool

    constructor (id: nat, lock: WalLock, nextFrameNo: nat, nextOffset: nat)
      ensures this.id == id && this.lock == lock
      ensures savepoints == [map[]] && this.nextFrameNo == nextFrameNo && this.nextOffset == nextOffset
      ensures !isCommited
    {
      this.id := id;
      this.lock := lock;
      savepoints := [map[]];
      this.nextFrameNo := nextFrameNo;
      this.nextOffset := nextOffset;
      isCommited := false;
    }
  }

  // ------------------------------------------------------------ appending

  /** The first `n` pages are long enough to fill a frame. */
  predicate FitsUpTo(pages: seq<(nat, seq<bv8>)>, n: nat)
  {
    forall i :: 0 <= i < n && i < |pages| ==> |pages[i].1| >= PAGE_SIZE - 8
  }

  /** Pages long enough to fill a frame. */
  predicate PagesFit(pages: seq<(nat, seq<bv8>)>)
  {
    FitsUpTo(pages, |pages|)
  }

  /** The number of pages written before the first page too short for a
      frame, whose `&page[..4096 - 8]` panics; all of them when none is. */
  function FullPrefix(pages: seq<(nat, seq<bv8>)>): (k: nat)
    ensures k <= |pages| && FitsUpTo(pages, k)
    ensures k < |pages| ==> |pages[k].1| < PAGE_SIZE - 8
    ensures k == |pages| <==> PagesFit(pages)
  {
    if pages == [] then 0
    else if |pages[0].1| < PAGE_SIZE - 8 then 0
    else 1 + FullPrefix(pages[1..])
  }

  /** The size-after field of the `i`-th of `n` frames: the database size on
      the last frame of a commit, 0 on every other frame. */
  function FrameSizeAfter(sizeAfter: Option<nat>, i: nat, n: nat): nat
  {
    if sizeAfter.Some? && i + 1 == n then sizeAfter.value else 0
  }

  /** The frames of `base` with the first `n` frames for `pages` written over them: page `i` goes to offset
      `offset + i` as frame number `frameNo + i`. */
  function Written(base: map<nat, Frame>, pages: seq<(nat, seq<bv8>)>, sizeAfter: Option<nat>, offset: nat, frameNo: nat, n: nat)
    : map<nat, Frame>
    requires n <= |pages| && FitsUpTo(pages, n) && frameNo + |pages| <= U64_LIMIT
  {
    if n == 0 then base
    else Written(base, pages, sizeAfter, offset, frameNo, n - 1)[offset + n - 1 :=
      FrameFor(pages[n - 1].0, pages[n - 1].1, FrameSizeAfter(sizeAfter, n - 1, |pages|), frameNo + n - 1)]
  }

  /** A savepoint index with the newest frame of page `p` at offset `o`. */
  function Record(idx: map<nat, Offset>, p: nat, o: Offset): map<nat, Offset>
  {
    idx[p := o]
  }

  /** A savepoint index after recording the first `n` pages at consecutive offsets from `offset`. */
  function Recorded(idx: map<nat, Offset>, pages: seq<(nat, seq<bv8>)>, offset: nat, n: nat): map<nat, Offset>
    requires n <= |pages| && offset + n <= U32_LIMIT
  {
    if n == 0 then idx else Record(Recorded(idx, pages, offset, n - 1), pages[n - 1].0, offset + n - 1)
  }

  /** After `n` pages, page `i < n` sits at offset `offset + i`. */
  lemma {:induction false} WrittenAt(base: map<nat, Frame>, pages: seq<(nat, seq<bv8>)>, sizeAfter: Option<nat>, offset: nat, frameNo: nat, n: nat, i: nat)
    requires n <= |pages| && FitsUpTo(pages, n) && frameNo + |pages| <= U64_LIMIT && i < n
    ensures offset + i in Written(base, pages, sizeAfter, offset, frameNo, n)
    ensures Written(base, pages, sizeAfter, offset, frameNo, n)[offset + i] ==
      FrameFor(pages[i].0, pages[i].1, FrameSizeAfter(sizeAfter, i, |pages|), frameNo + i)
  {
    if i < n - 1 {
      WrittenAt(base, pages, sizeAfter, offset, frameNo, n - 1, i);
    }
  }

  /** Each written frame is readable: page `i` is at offset `offset + i` with its
      page number, its bytes and frame number `frameNo + i` (stored as
      `FrameDataReadsBack` shows), and a nonzero size-after only if it is the
      last page of a commit. */
  lemma WrittenFrames(base: map<nat, Frame>, pages: seq<(nat, seq<bv8>)>, sizeAfter: Option<nat>, offset: nat, frameNo: nat, i: nat)
    requires PagesFit(pages) && frameNo + |pages| <= U64_LIMIT && i < |pages|
    ensures var w := Written(base, pages, sizeAfter, offset, frameNo, |pages|);
      offset + i in w &&
      w[offset + i].header.pageNo == pages[i].0 &&
      w[offset + i].prefix == pages[i].1[..PAGE_SIZE - 8] &&
      w[offset + i].frameNo == frameNo + i &&
      (w[offset + i].header.sizeAfter != 0 ==> sizeAfter.Some? && i == |pages| - 1)
  {
    WrittenAt(base, pages, sizeAfter, offset, frameNo, |pages|, i);
  }

  /** Writing a batch whose first frame number is `start + offset` keeps the
      frames numbered from `start`. */
  lemma {:induction false} WrittenNumbered(base: map<nat, Frame>, pages: seq<(nat, seq<bv8>)>, sizeAfter: Option<nat>,
                                           offset: nat, frameNo: nat, n: nat, start: nat)
    requires n <= |pages| && FitsUpTo(pages, n) && frameNo + |pages| <= U64_LIMIT
    requires Numbered(start, base) && frameNo == start + offset
    ensures Numbered(start, Written(base, pages, sizeAfter, offset, frameNo, n))
  {
    if n > 0 {
      WrittenNumbered(base, pages, sizeAfter, offset, frameNo, n - 1, start);
    }
  }

  /** A savepoint index after recording a batch holds the pages it held and
      the pages of the batch. */
  lemma {:induction false} RecordedKeys(idx: map<nat, Offset>, pages: seq<(nat, seq<bv8>)>, offset: nat, n: nat, p: nat)
    requires n <= |pages| && offset + n <= U32_LIMIT
    ensures p in Recorded(idx, pages, offset, n) <==> p in idx || exists i :: 0 <= i < n && pages[i].0 == p
  {
    if n > 0 {
      RecordedKeys(idx, pages, offset, n - 1, p);
    }
  }

  /** A page recorded in the batch maps to the offset of its last occurrence. */
  lemma {:induction false} RecordedLastWins(idx: map<nat, Offset>, pages: seq<(nat, seq<bv8>)>, offset: nat, n: nat, i: nat)
    requires n <= |pages| && offset + n <= U32_LIMIT
    requires i < n && forall j :: i < j < n ==> pages[j].0 != pages[i].0
    ensures pages[i].0 in Recorded(idx, pages, offset, n)
    ensures Recorded(idx, pages, offset, n)[pages[i].0] == offset + i
  {
    if i < n - 1 {
      RecordedLastWins(idx, pages, offset, n - 1, i);
    }
  }

  /** A page outside the batch keeps its entry. */
  lemma {:induction false} RecordedKeepsOthers(idx: map<nat, Offset>, pages: seq<(nat, seq<bv8>)>, offset: nat, n: nat, p: nat)
    requires n <= |pages| && offset + n <= U32_LIMIT
    requires p in idx && forall i :: 0 <= i < n ==> pages[i].0 != p
    ensures p in Recorded(idx, pages, offset, n) && Recorded(idx, pages, offset, n)[p] == idx[p]
  {
    if n > 0 {
      RecordedKeepsOthers(idx, pages, offset, n - 1, p);
    }
  }

  /** Some savepoint has recorded a page. */
  predicate AnyRecorded(savepoints: seq<map<nat, Offset>>)
  {
    exists i :: 0 <= i < |savepoints| && savepoints[i] != map[]
  }

  /** The savepoints newest first. */
  function NewestFirst<T>(s: seq<T>): (r: seq<T>)
    ensures |r| == |s| && forall i :: 0 <= i < |s| ==> r[i] == s[|s| - 1 - i]
  {
    if |s| == 0 then [] else [s[|s| - 1]] + NewestFirst(s[..|s| - 1])
  }

  // ------------------------------------------------------------ the log

  /** A sealed log: an immutable header, the merged index (page number to
      index entry) and the frames of the file. */
  datatype SealedLog = SealedLog(header: LogHeader, index: map<nat, U64>, frames: map<nat, Frame>, readLocks: nat)
  {
    /** Reads page `pageNo` for a snapshot ending at `maxFrameNo`. */
    function ReadPage(pageNo: nat, maxFrameNo: nat): (r: PageRead)
      ensures r.Hit? ==> (header.lastCommitedFrameNo <= maxFrameNo && pageNo in index &&
        IndexEntrySplit(index[pageNo]).1 in frames && r.page == frames[IndexEntrySplit(index[pageNo]).1].Data())
      ensures r.Missing? <==> header.lastCommitedFrameNo > maxFrameNo || pageNo !in index
    {
      if header.lastCommitedFrameNo > maxFrameNo then Missing
      else if pageNo !in index then Missing
      else
        var offset := IndexEntrySplit(index[pageNo]).1;
        if offset in frames then Hit(frames[offset].Data()) else ReadFailed
    }
  }

  /** The result of reading a page from a sealed log. */
  datatype PageRead = Missing | Hit(page: seq<bv8>) | ReadFailed

  /** The index a sealed log reads: each merged offset as a 64-bit entry. */
  function SealedIndex(m: map<nat, Offset>): (r: map<nat, U64>)
    ensures r.Keys == m.Keys
    ensures forall p | p in r :: IndexEntrySplit(r[p]) == (0, m[p])
  {
    IndexEntryRoundTripAll(m);
    map p | p in m :: m[p]
  }

  lemma IndexEntryRoundTripAll(m: map<nat, Offset>)
    ensures forall p | p in m :: IndexEntrySplit(m[p]) == (0, m[p])
  {
    forall p | p in m
      ensures IndexEntrySplit(m[p]) == (0, m[p])
    {
      IndexEntryRoundTrip(0, m[p]);
    }
  }

  /** A log that is still written to. */
  class Log {
    var header: LogHeader
    const index: LogIndex
    var frames: map<nat, Frame>
    var readLocks: nat
    var sealed: bool

    /** A new, empty log whose first frame will be `startFrameNo`. The page
        index starts at the log's own first frame. */
    constructor Create(startFrameNo: nat, dbSize: nat)
      requires startFrameNo >= 1
      ensures header == LogHeader(startFrameNo, 0, dbSize, 0, 0)
      ensures header.IsEmpty() && header.CountCommitted() == 0 && header.NextFrameNo() == startFrameNo
      ensures fresh(index) && index.startFrameNo == startFrameNo && index.index == map[]
      ensures frames == map[] && readLocks == 0 && !sealed
      ensures Numbered(index.startFrameNo, frames)
    {
      header := LogHeader(startFrameNo, 0, dbSize, 0, 0);
      index := new LogIndex.Starting(startFrameNo);
      frames := map[];
      readLocks := 0;
      sealed := false;
    }

    /** Writes `page` as the next frame of `tx` and records its offset in the newest savepoint. */
    method AppendFrame(pageNo: nat, page: seq<bv8>, size: nat, tx: WriteTransaction)
      requires |page| >= PAGE_SIZE - 8 && tx.nextFrameNo < U64_LIMIT && tx.nextOffset < U32_LIMIT
      requires tx.savepoints != []
      modifies this`frames, tx`nextFrameNo, tx`nextOffset, tx`savepoints
      ensures tx.nextFrameNo == old(tx.nextFrameNo) + 1 && tx.nextOffset == old(tx.nextOffset) + 1
      ensures frames == old(frames)[old(tx.nextOffset) := FrameFor(pageNo, page, size, old(tx.nextFrameNo))]
      ensures var last := |old(tx.savepoints)| - 1;
        tx.savepoints == old(tx.savepoints)[last := Record(old(tx.savepoints)[last], pageNo, old(tx.nextOffset))]
    {
      var frameNo := tx.nextFrameNo;
      tx.nextFrameNo := tx.nextFrameNo + 1;
      var offset: Offset := tx.nextOffset;
      tx.nextOffset := tx.nextOffset + 1;
      frames := frames[offset := FrameFor(pageNo, page, size, frameNo)];
      var last := |tx.savepoints| - 1;
      tx.savepoints := tx.savepoints[last := Record(tx.savepoints[last], pageNo, offset)];
    }

    /** Writes the pages of `pages` as frames of `tx`, in order, and records
        each in the newest savepoint, up to the first page too short for a
        frame; `full` tells whether every page was written. */
    method AppendAll(pages: seq<(nat, seq<bv8>)>, sizeAfter: Option<nat>, tx: WriteTransaction) returns (full: bool)
      requires tx.savepoints != []
      requires tx.nextFrameNo + |pages| <= U64_LIMIT && tx.nextOffset + |pages| <= U32_LIMIT
      modifies this`frames, tx`nextFrameNo, tx`nextOffset, tx`savepoints
      ensures full == PagesFit(pages)
      ensures tx.nextFrameNo == old(tx.nextFrameNo) + FullPrefix(pages)
      ensures tx.nextOffset == old(tx.nextOffset) + FullPrefix(pages)
      ensures frames == Written(old(frames), pages, sizeAfter, old(tx.nextOffset), old(tx.nextFrameNo), FullPrefix(pages))
      ensures var last := |old(tx.savepoints)| - 1;
        tx.savepoints == old(tx.savepoints)[last := Recorded(old(tx.savepoints)[last], pages, old(tx.nextOffset), FullPrefix(pages))]
    {
      ghost var last := |tx.savepoints| - 1;
      ghost var offset0 := tx.nextOffset;
      ghost var frameNo0 := tx.nextFrameNo;
      ghost var current0 := tx.savepoints[last];
      var i := 0;
      while i < |pages|
        invariant 0 <= i <= FullPrefix(pages)
        invariant tx.nextOffset == offset0 + i && tx.nextFrameNo == frameNo0 + i
        invariant tx.savepoints == old(tx.savepoints)[last := Recorded(current0, pages, offset0, i)]
        invariant frames == Written(old(frames), pages, sizeAfter, offset0, frameNo0, i)
      {
        if |pages[i].1| < PAGE_SIZE - 8 {
          return false;
        }
        AppendFrame(pages[i].0, pages[i].1, FrameSizeAfter(sizeAfter, i, |pages|), tx);
        i := i + 1;
      }
      return true;
    }

    /** Ends a commit of database size `sizeAfter`: when some savepoint recorded
        a page, the header names the transaction's last frame and the recorded
        pages join the page index; the transaction is committed either way. */
    method CommitBatch(sizeAfter: nat, tx: WriteTransaction,
                       merge: (seq<map<nat, Offset>>, map<nat, seq<Offset>>) -> map<nat, seq<Offset>>)
      requires tx.nextFrameNo >= 1
      modifies this`header, index`index, tx`isCommited
      ensures tx.isCommited
      ensures header == (if AnyRecorded(tx.savepoints)
                         then old(header).(lastCommitedFrameNo := tx.nextFrameNo - 1, dbSize := sizeAfter)
                         else old(header))
      ensures index.index == (if AnyRecorded(tx.savepoints)
                              then merge(NewestFirst(tx.savepoints), old(index.index))
                              else old(index.index))
    {
      if |tx.savepoints| == 1 && tx.savepoints[0] == map[] {
        // nothing was recorded: the header stays as it is
      } else if AnyRecorded(tx.savepoints) {
        header := header.(lastCommitedFrameNo := tx.nextFrameNo - 1, dbSize := sizeAfter);
        index.index := merge(NewestFirst(tx.savepoints), index.index);
      }
      tx.isCommited := true;
    }

    /**
     * Appends `pages` for the write transaction `tx`, each as one frame. With
     * `sizeAfter` present the batch ends a commit (see `CommitBatch`). A page
     * too short for a frame panics, after the pages before it were written.
     */
    method InsertPages(pages: seq<(nat, seq<bv8>)>, sizeAfter: Option<nat>, tx: WriteTransaction,
                       merge: (seq<map<nat, Offset>>, map<nat, seq<Offset>>) -> map<nat, seq<Offset>>)
      returns (r: Outcome<()>)
      requires 1 <= tx.nextFrameNo && tx.nextFrameNo + |pages| <= U64_LIMIT
      requires tx.nextOffset + |pages| <= U32_LIMIT
      modifies this, index, tx
      ensures sealed == old(sealed) && readLocks == old(readLocks) && index.startFrameNo == old(index.startFrameNo)
      ensures old(sealed) ==> r == Panicked(AlreadySealed)
      ensures !old(sealed) && EnterGuard(old(tx.isCommited), tx.id, old(tx.lock.txId)).Some? ==>
        r == Panicked(EnterGuard(old(tx.isCommited), tx.id, old(tx.lock.txId)).value)
      ensures (!old(sealed) && EnterGuard(old(tx.isCommited), tx.id, old(tx.lock.txId)).None? &&
        old(tx.savepoints) == []) ==> r == Panicked(NoSavepoint)
      ensures r.Panicked? && r.panic != ShortPage ==> unchanged(this, index, tx)
      ensures r == Panicked(ShortPage) <==>
        !old(sealed) && EnterGuard(old(tx.isCommited), tx.id, old(tx.lock.txId)).None? && old(tx.savepoints) != [] &&
        !PagesFit(pages)
      ensures r == Panicked(ShortPage) ==>
        header == old(header) && index.index == old(index.index) && tx.isCommited == old(tx.isCommited)
      ensures r.Returned? <==>
        !old(sealed) && EnterGuard(old(tx.isCommited), tx.id, old(tx.lock.txId)).None? && old(tx.savepoints) != [] &&
        PagesFit(pages)
      ensures (r.Returned? || r == Panicked(ShortPage)) ==>
        tx.nextFrameNo == old(tx.nextFrameNo) + FullPrefix(pages) && tx.nextOffset == old(tx.nextOffset) + FullPrefix(pages)
      ensures Numbered(index.startFrameNo, old(frames)) && old(tx.nextFrameNo) == index.startFrameNo + old(tx.nextOffset) ==>
        Numbered(index.startFrameNo, frames) && tx.nextFrameNo == index.startFrameNo + tx.nextOffset
      ensures (r.Returned? || r == Panicked(ShortPage)) ==>
        frames == Written(old(frames), pages, sizeAfter, old(tx.nextOffset), old(tx.nextFrameNo), FullPrefix(pages))
      ensures (r.Returned? || r == Panicked(ShortPage)) ==>
        var last := |old(tx.savepoints)| - 1;
        tx.savepoints == old(tx.savepoints)[last := Recorded(old(tx.savepoints)[last], pages, old(tx.nextOffset), FullPrefix(pages))]
      ensures r.Returned? ==> tx.isCommited == (old(tx.isCommited) || sizeAfter.Some?)
      ensures r.Returned? ==>
        header == (if sizeAfter.Some? && AnyRecorded(tx.savepoints)
                   then old(header).(lastCommitedFrameNo := tx.nextFrameNo - 1, dbSize := sizeAfter.value)
                   else old(header))
      ensures r.Returned? ==>
        index.index == (if sizeAfter.Some? && AnyRecorded(tx.savepoints)
                        then merge(NewestFirst(tx.savepoints), old(index.index))
                        else old(index.index))
    {
      if sealed {
        return Panicked(AlreadySealed);
      }
      var guard := EnterGuard(tx.isCommited, tx.id, tx.lock.txId);
      if guard.Some? {
        return Panicked(guard.value);
      }
      if tx.savepoints == [] {
        return Panicked(NoSavepoint);
      }
      var full := AppendAll(pages, sizeAfter, tx);
      if Numbered(index.startFrameNo, old(frames)) && old(tx.nextFrameNo) == index.startFrameNo + old(tx.nextOffset) {
        WrittenNumbered(old(frames), pages, sizeAfter, old(tx.nextOffset), old(tx.nextFrameNo), FullPrefix(pages), index.startFrameNo);
      }
      if !full {
        return Panicked(ShortPage);
      }
      if sizeAfter.Some? {
        CommitBatch(sizeAfter.value, tx, merge);
      }
      return Returned(());
    }

    /**
     * The offset of the frame to read for `pageNo`: a write transaction's own
     * newest frame of the page when it has one (`fromTx`, the answer of its
     * `find_frame_offset`), otherwise the newest frame of the log within the
     * snapshot `maxFrameNo`.
     */
    method FindFrame(pageNo: nat, maxFrameNo: nat, fromTx: Option<Offset>) returns (r: Option<Offset>)
      ensures fromTx.Some? ==> r == fromTx
      ensures fromTx.None? ==>
        r == (if pageNo in index.index then Latest(index.index[pageNo], index.startFrameNo, maxFrameNo) else None)
      ensures fromTx.None? && Numbered(index.startFrameNo, frames) && r.Some? && r.value in frames ==>
        frames[r.value].frameNo <= maxFrameNo
    {
      if fromTx.Some? {
        return fromTx;
      }
      r := index.Locate(pageNo, maxFrameNo);
    }

    /** Seals the log: the merged page index is written after the committed
        frames and the header records where. Sealing twice panics, and so does
        merging a page index holding a page without offsets, once the log is
        marked sealed. */
    method Seal(indexSize: nat) returns (r: Outcome<SealedLog>)
      requires header.startFrameNo >= 1
      modifies this
      ensures old(sealed) ==> r == Panicked(AlreadySealed) && unchanged(this)
      ensures !old(sealed) ==> sealed
      ensures !old(sealed) && !index.Valid() ==> r == Panicked(NoEntries) && header == old(header)
      ensures !old(sealed) && index.Valid() ==>
        header == old(header).(indexOffset := ByteOffset(old(header).CountCommitted() % U32_LIMIT), indexSize := indexSize)
      ensures frames == old(frames) && readLocks == old(readLocks)
      ensures !old(sealed) && index.Valid() ==>
        r == Returned(SealedLog(header, SealedIndex(index.MergeAll()), frames, readLocks))
    {
      if sealed {
        return Panicked(AlreadySealed);
      }
      sealed := true;
      if !index.Valid() {
        return Panicked(NoEntries);
      }
      var indexOffset := header.CountCommitted() % U32_LIMIT;
      header := header.(indexOffset := ByteOffset(indexOffset), indexSize := indexSize);
      return Returned(SealedLog(header, SealedIndex(index.MergeAll()), frames, readLocks));
    }
  }

  /** Reading a page from a freshly sealed log, with a snapshot that includes
      the log's last commit, returns the page of its last recorded frame. */
  lemma SealedReadsLastEntry(idx: LogIndex, header: LogHeader, frames: map<nat, Frame>, readLocks: nat,
                             pageNo: nat, maxFrameNo: nat)
    requires idx.Valid() && pageNo in idx.index
    requires header.lastCommitedFrameNo <= maxFrameNo
    requires idx.index[pageNo][|idx.index[pageNo]| - 1] in frames
    ensures SealedLog(header, SealedIndex(idx.MergeAll()), frames, readLocks).ReadPage(pageNo, maxFrameNo)
      == Hit(frames[idx.index[pageNo][|idx.index[pageNo]| - 1]].Data())
  {
  }
}
