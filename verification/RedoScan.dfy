/** What `rfsck_replay` computes, as a function of the log file and the device (any bytes whatever). */
module RedoScan {
  import opened Bytes
  import opened RedoFormat
  import opened RedoLayout

  /** One copy from the log to the device. */
  datatype Copied = Copied(from: int, offset: u64, size: u32)

  /**
   The state of the replay loop. `tags` are the slots of all index blocks read so far (`replay_blocks`),
   `offsets` and `heads` where each block was read from and its first two fields; `cursor` is
   `replay_log_offset`, the place the next data is read from; `copies` records the copies made and
   `mismatches` counts the checksum messages printed.
   */
  datatype Scan = Scan(
    log: File, dev: File, tags: seq<Tag>, offsets: seq<nat>, heads: seq<BlockHead>,
    txnId: u32, csum: u32, beginAt: nat, replayed: bool, cursor: nat,
    copies: seq<Copied>, mismatches: nat)
  {
    /** Whole blocks have been read, and an open transaction that is being tracked began before slot `g`. */
    predicate Valid(g: nat) {
      && |tags| == KEYS_PER_BLOCK * |offsets| && |offsets| == |heads|
      && g <= |tags|
      && (txnId != 0 && !replayed ==> beginAt < g)
    }
  }

  predicate IsMarker(t: Tag) { t.size == 0 && t.crc > 0 }

  /** The extra step of the cursor when slot `x` is the last of its index block. */
  function Skip(x: nat): nat {
    if x % KEYS_PER_BLOCK == KEYS_PER_BLOCK - 1 then REDO_LOG_BLOCK_SIZE else 0
  }

  /** Copying the data of slot `x` from the cursor. */
  function CopySlot(st: Scan, x: nat): (r: Scan)
    requires x < |st.tags|
    ensures r == st.(dev := r.dev, cursor := r.cursor, copies := r.copies)
  {
    var t := st.tags[x];
    st.(dev := PWrite(st.dev, t.offset, PRead(st.log, st.cursor, t.size)),
        cursor := st.cursor + t.size + Skip(x),
        copies := st.copies + [Copied(st.cursor, t.offset, t.size)])
  }

  /** Copying the data of slots `x..g`. */
  function CopySlots(st: Scan, x: nat, g: nat): (r: Scan)
    requires x <= g <= |st.tags|
    ensures r == st.(dev := r.dev, cursor := r.cursor, copies := r.copies)
    decreases g
  {
    if x == g then st else CopySlot(CopySlots(st, x, g - 1), g - 1)
  }

  lemma CopyUnfold(st: Scan, x: nat, g: nat)
    requires x <= g <= |st.tags|
    ensures CopySlots(st, x, g) == if x == g then st else CopySlot(CopySlots(st, x, g - 1), g - 1)
  {
  }

  lemma {:induction false} CopyConcat(st: Scan, x: nat, y: nat, g: nat)
    requires x <= y <= g <= |st.tags|
    ensures CopySlots(CopySlots(st, x, y), y, g) == CopySlots(st, x, g)
    decreases g
  {
    hide CopySlot;
    if y == g {
    } else {
      CopyConcat(st, x, y, g - 1);
    }
  }

  /** Marking the transaction that began at `st.beginAt`: in memory and, as a whole block, in the log file. */
  function Mark(st: Scan): (r: Scan)
    requires st.Valid(|st.tags|) && st.beginAt < |st.tags|
    ensures |r.tags| == |st.tags|
  {
    var b := st.beginAt / KEYS_PER_BLOCK;
    var tags := st.tags[st.beginAt := st.tags[st.beginAt].(offset := TXN_REPLAYED_CNST)];
    st.(tags := tags, log := PWrite(st.log, st.offsets[b], EncodeBlock(st.heads[b], BlockOf(tags, b))))
  }

  /** The end marker in slot `g` of a transaction not replayed before: check, copy, mark, reset. */
  function FinishTxn(crc: Crc, st: Scan, g: nat): (r: Scan)
    requires st.Valid(g) && g < |st.tags| && st.beginAt < g
    ensures r.Valid(g + 1) && |r.tags| == |st.tags|
    ensures r.offsets == st.offsets
  {
    var t := st.tags[g];
    var csum := Xor32(st.csum, TagCrc(crc, t.(offset := 0)));
    var bad := if t.offset % 0x1_0000_0000 != csum then 1 else 0;
    var copied := CopySlots(st.(cursor := st.cursor + Skip(st.beginAt)), st.beginAt + 1, g);
    Mark(copied).(txnId := 0, csum := 0, beginAt := 0, mismatches := st.mismatches + bad)
  }

  /** The scanner's step on slot `g`. */
  function ScanSlot(crc: Crc, st: Scan, g: nat): (r: Scan)
    requires st.Valid(g) && g < |st.tags|
    ensures r.Valid(g + 1) && |r.tags| == |st.tags|
    ensures r.offsets == st.offsets
  {
    var t := st.tags[g];
    if t == ZERO_TAG then st
    else if IsMarker(t) then
      if st.txnId == 0 then
        if t.offset == TXN_REPLAYED_CNST then st.(txnId := t.crc, replayed := true)
        else st.(txnId := t.crc, replayed := false, beginAt := g,
                 csum := Xor32(TXN_CHKSM_CNST, TagCrc(crc, t)))
      else if st.replayed then st.(txnId := 0)
      else FinishTxn(crc, st, g)
    else if st.replayed then st
    else st.(csum := Xor32(st.csum, TagCrc(crc, t)))
  }

  function ScanSlots(crc: Crc, st: Scan, lo: nat, hi: nat): (r: Scan)
    requires st.Valid(lo) && lo <= hi <= |st.tags|
    ensures r.Valid(hi) && |r.tags| == |st.tags|
    ensures r.offsets == st.offsets
    decreases hi
  {
    if lo == hi then st else ScanSlot(crc, ScanSlots(crc, st, lo, hi - 1), hi - 1)
  }

  /** Reading the index block at `at`. */
  function ReadBlock(st: Scan, at: nat): (r: Scan)
    requires st.Valid(|st.tags|)
    ensures r.Valid(|st.tags|) && |r.tags| == |st.tags| + KEYS_PER_BLOCK
  {
    var bs := PRead(st.log, at, REDO_LOG_BLOCK_SIZE);
    st.(tags := st.tags + DecodeBlock(bs), offsets := st.offsets + [at], heads := st.heads + [DecodeHead(bs)])
  }

  function ScanBlock(crc: Crc, st: Scan, at: nat): (r: Scan)
    requires st.Valid(|st.tags|)
    ensures r.Valid(|r.tags|) && |r.tags| == |st.tags| + KEYS_PER_BLOCK && |r.offsets| == |st.offsets| + 1
  {
    ScanSlots(crc, ReadBlock(st, at), |st.tags|, |st.tags| + KEYS_PER_BLOCK)
  }

  /** Where the block after the one at `at` starts: past the block and the data of its slots. */
  function NextBlockAt(f: File, at: nat): nat {
    var ts := DecodeBlock(PRead(f, at, REDO_LOG_BLOCK_SIZE));
    at + REDO_LOG_BLOCK_SIZE + SizeUpTo(ts, |ts|)
  }

  /** Scanning `n` more blocks, the first of them at `at`. */
  function ScanBlocks(crc: Crc, st: Scan, at: nat, n: nat): (r: Scan)
    requires st.Valid(|st.tags|)
    ensures r.Valid(|r.tags|)
    decreases n
  {
    if n == 0 then st else ScanBlocks(crc, ScanBlock(crc, st, at), NextBlockAt(st.log, at), n - 1)
  }

  /** Where the block after those `n` is looked for. */
  function ScanPos(crc: Crc, st: Scan, at: nat, n: nat): nat
    requires st.Valid(|st.tags|)
    decreases n
  {
    if n == 0 then at else ScanPos(crc, ScanBlock(crc, st, at), NextBlockAt(st.log, at), n - 1)
  }

  /** Scanning goes block by block. */
  lemma {:induction false} ScanBlocksSnoc(crc: Crc, st: Scan, at: nat, n: nat)
    requires st.Valid(|st.tags|)
    ensures |ScanBlocks(crc, st, at, n).tags| == |st.tags| + KEYS_PER_BLOCK * n
    ensures ScanBlocks(crc, st, at, n + 1) == ScanBlock(crc, ScanBlocks(crc, st, at, n), ScanPos(crc, st, at, n))
    decreases n
  {
    hide ScanBlock, NextBlockAt;
    if n == 0 {
      assert ScanBlocks(crc, st, at, 1) == ScanBlocks(crc, ScanBlock(crc, st, at), NextBlockAt(st.log, at), 0);
    } else {
      ScanBlocksSnoc(crc, ScanBlock(crc, st, at), NextBlockAt(st.log, at), n - 1);
    }
  }

  function StartScan(log: File, dev: File): Scan {
    Scan(log, dev, [], [], [], 0, 0, 0, false, HEADER_SIZE + REDO_LOG_BLOCK_SIZE, [], 0)
  }

  /** The whole of replay past the header checks. */
  function ReplayScan(crc: Crc, log: File, dev: File): Scan {
    var h := HeaderOf(log);
    ScanBlocks(crc, StartScan(log, dev), h.keyOffset, h.numKeys + 1)
  }

  /** The state of a replay that has scanned `b` index blocks and `j` slots of the next. */
  function ScanTo(crc: Crc, log: File, dev: File, b: nat, j: nat): (r: Scan)
    requires j <= KEYS_PER_BLOCK
    ensures |r.tags| == KEYS_PER_BLOCK * (b + 1) && r.Valid(KEYS_PER_BLOCK * b + j)
  {
    var start, at := StartScan(log, dev), HeaderOf(log).keyOffset;
    ScanBlocksSnoc(crc, start, at, b);
    ScanSlots(crc, ReadBlock(ScanBlocks(crc, start, at, b), ScanPos(crc, start, at, b)),
              KEYS_PER_BLOCK * b, KEYS_PER_BLOCK * b + j)
  }

  /** With the last slot of the last block the replay is complete. */
  lemma ScanToEnd(crc: Crc, log: File, dev: File)
    ensures ScanTo(crc, log, dev, HeaderOf(log).numKeys, KEYS_PER_BLOCK) == ReplayScan(crc, log, dev)
  {
    hide ScanBlocks, ScanSlots, ReadBlock;
    ScanBlocksSnoc(crc, StartScan(log, dev), HeaderOf(log).keyOffset, HeaderOf(log).numKeys);
  }

  /** The device after a replay; nothing happens unless the header is valid and says "finished". */
  function Recover(crc: Crc, log: File, dev: File): File {
    if Replayable(crc, log) then ReplayScan(crc, log, dev).dev else dev
  }
}
