/** The logging library itself: `redo_data` with the log file and the device behind it (rfsck-lib/redo.c). */
module RedoLog {
  import opened Bytes
  import opened RedoFormat
  import opened RedoLayout
  import opened RedoWriter
  import opened RedoScan
  import opened RedoReplay
  import opened RedoTheorems
  import opened RedoCrash

  class RedoData {
    const crc: Crc

    var log: File                // the file behind redo_fd
    var dev: File                // the device behind dev_fd
    var hdr: Header
    var keyb: array<Tag>         // the tags of the current index block
    var numKeys: nat             // index blocks completed
    var keysInBlock: nat
    var redoBlockOffset: nat     // where the current index block goes
    var logOffset: nat           // where the next data goes
    var txnId: u32
    var txnCsum: u32
    var txnBeginBlk: nat         // replay only: the block and the slot of the begin marker
    var txnBeginIdx: nat

    /** The logical log that the fields above stand for, and the writes the logging calls issued to the log file. */
    ghost var w: Writer
    ghost var issued: seq<Pwrite>

    /** The log layout: the offsets kept by increments are the closed-form positions. */
    ghost predicate Valid()
      reads this, keyb
    {
      && keyb.Length == KEYS_PER_BLOCK
      && hdr == w.hdr && hdr.Sized()
      && txnId == w.txnId && txnCsum == w.csum
      && numKeys == |w.slots| / KEYS_PER_BLOCK
      && keysInBlock == |w.slots| % KEYS_PER_BLOCK
      && var index := Index(crc, w.slots);
         && keyb[..] == BlockOf(index, numKeys)
         && redoBlockOffset == BlockPos(index, numKeys)
         && logOffset == Pos(index, |w.slots|)
    }

    /** What every logging call promises: the logical step, and exactly the writes of that step. */
    twostate predicate Did(op: Op)
      reads this, keyb
    {
      && Valid()
      && old(w.hdr.Sized()) && CanStep(old(w), op)
      && w == Step(crc, old(w), op)
      && issued == old(issued) + Writes(crc, old(w), op)
      && log == Apply(old(log), Writes(crc, old(w), op))
      && dev == old(dev)
    }

    /** `redo_setup` on a fresh `redo_data`; the header padding is whatever the allocation held. */
    constructor (crc: Crc, log: File, dev: File, padding: seq<byte>)
      requires |padding| == 468
      ensures Valid() && fresh(keyb)
      ensures this.crc == crc && this.log == log && this.dev == dev && issued == []
      ensures w.slots == [] && w.txnId == 1
      ensures hdr.state != STATE_FINISHED && hdr.keyOffset == HEADER_SIZE && hdr == Sealed(crc, hdr)
    {
      this.crc := crc;
      this.log := log;
      this.dev := dev;
      var magic: seq<byte> := [0x45, 0x32, 0x52, 0x45, 0x44, 0x4F, 0x30, 0x31];
      var h := Sealed(crc, Header(magic, 0, 0, HEADER_SIZE, 0, 0, 0, padding));
      hdr := h;
      keyb := new Tag[KEYS_PER_BLOCK](_ => ZERO_TAG);
      numKeys, keysInBlock := 0, 0;
      redoBlockOffset := HEADER_SIZE;
      logOffset := HEADER_SIZE + REDO_LOG_BLOCK_SIZE;
      txnId, txnCsum := 1, 0;
      txnBeginBlk, txnBeginIdx := 0, 0;
      w := Writer([], 1, 0, h);
      issued := [];
      new;
      assert keyb[..] == BlockOf(Index(crc, []), 0);
    }

    /** `write_info` on the log file. */
    method WriteLog(off: nat, bytes: seq<byte>)
      modifies this`log, this`issued
      ensures log == Put(old(log), Pwrite(off, bytes))
      ensures issued == old(issued) + [Pwrite(off, bytes)]
    {
      log := PWrite(log, off, bytes);
      issued := issued + [Pwrite(off, bytes)];
    }

    /** `rfsck_flush`: puts out the current index block. */
    method Flush()
      requires Valid()
      modifies this`log, this`issued
      ensures issued == old(issued) + [CurrentWrite(crc, w.slots)]
      ensures log == Put(old(log), CurrentWrite(crc, w.slots))
    {
      hide SealedBlock, PWrite;
      WriteLog(redoBlockOffset, SealedBlock(crc, keyb[..]));
    }

    /** Puts `tag` into the next slot and writes the index block; then starts a new block if this one is full. */
    method AddSlot(tag: Tag, size: nat, ghost slot: Slot)
      requires keyb.Length == KEYS_PER_BLOCK && hdr.Sized()
      requires numKeys == |w.slots| / KEYS_PER_BLOCK && keysInBlock == |w.slots| % KEYS_PER_BLOCK
      requires keyb[..] == BlockOf(Index(crc, w.slots), numKeys)
      requires redoBlockOffset == BlockPos(Index(crc, w.slots), numKeys)
      requires logOffset == Pos(Index(crc, w.slots), |w.slots|) + size
      requires tag == TagOf(crc, slot) && tag.size == size
      modifies this`log, this`issued, this`w, this`keyb, this`numKeys, this`keysInBlock, this`redoBlockOffset,
               this`logOffset, keyb
      ensures w == old(w).(slots := old(w).slots + [slot])
      ensures keyb.Length == KEYS_PER_BLOCK && (keyb == old(keyb) || fresh(keyb))
      ensures numKeys == |w.slots| / KEYS_PER_BLOCK && keysInBlock == |w.slots| % KEYS_PER_BLOCK
      ensures keyb[..] == BlockOf(Index(crc, w.slots), numKeys)
      ensures redoBlockOffset == BlockPos(Index(crc, w.slots), numKeys)
      ensures logOffset == Pos(Index(crc, w.slots), |w.slots|)
      ensures issued == old(issued) + [LastSlotWrite(crc, w.slots)]
      ensures log == Put(old(log), LastSlotWrite(crc, w.slots))
    {
      hide SealedBlock, PWrite, Pos, BlockPos, BlockOf, TagOf, Put;
      IndexGrows(crc, w.slots, slot);
      keyb[keysInBlock] := tag;
      assert keyb[..] == BlockOf(Index(crc, w.slots + [slot]), numKeys);
      WriteLog(redoBlockOffset, SealedBlock(crc, keyb[..]));
      w := w.(slots := w.slots + [slot]);
      keysInBlock := keysInBlock + 1;
      if keysInBlock == KEYS_PER_BLOCK {
        keyb := new Tag[KEYS_PER_BLOCK](_ => ZERO_TAG);
        keysInBlock := 0;
        numKeys := numKeys + 1;
        redoBlockOffset := logOffset;
        logOffset := logOffset + REDO_LOG_BLOCK_SIZE;
      }
    }

    /** `rfsck_txn_begin`. */
    method TxnBegin()
      requires Valid()
      modifies this, keyb
      ensures Did(Begin) && (keyb == old(keyb) || fresh(keyb))
    {
      hide SealedBlock, EncodeHeader, Sealed, Xor32, TagCrc, Put, Pos, BlockPos, BlockOf;
      var tag := Tag(0, 0, txnId);
      var c := Xor32(TXN_CHKSM_CNST, TagCrc(crc, tag));
      AddSlot(tag, 0, BeginSlot(txnId));
      txnCsum := c;
      w := w.(csum := c);
      ghost var a := LastSlotWrite(crc, w.slots);
      ApplyFew(old(log), a, a, a, a);
    }

    /** `rfsck_write`. */
    method RfsckWrite(offset: u64, data: Buffer)
      requires Valid()
      modifies this, keyb
      ensures Did(Write(offset, data)) && (keyb == old(keyb) || fresh(keyb))
    {
      hide SealedBlock, EncodeHeader, Sealed, Xor32, TagCrc, Put, Pos, BlockPos, BlockOf, Apply, LastSlotWrite;
      var tag := Tag(offset, |data|, crc(data));
      var c := Xor32(txnCsum, TagCrc(crc, tag));
      WriteLog(logOffset, data);
      logOffset := logOffset + |data|;
      AddSlot(tag, |data|, DataSlot(offset, data));
      txnCsum := c;
      w := w.(csum := c);
      ghost var a, b := Pwrite(old(logOffset), data), LastSlotWrite(crc, w.slots);
      ApplyFew(old(log), a, b, b, b);
      assert issued == old(issued) + [a, b];
    }

    /** `rfsck_txn_end`. */
    method TxnEnd()
      requires Valid() && txnId < MAX_TXN_ID
      modifies this, keyb
      ensures Did(End) && (keyb == old(keyb) || fresh(keyb))
    {
      hide SealedBlock, EncodeHeader, Sealed, Xor32, TagCrc, Put, Pos, BlockPos, BlockOf;
      var c := Xor32(txnCsum, TagCrc(crc, Tag(0, 0, txnId)));
      AddSlot(Tag(c, 0, txnId), 0, EndSlot(txnId, c));
      txnId := txnId + 1;
      txnCsum := 0;
      w := w.(csum := 0, txnId := w.txnId + 1);
      Flush();
      ghost var a, b := LastSlotWrite(crc, w.slots), CurrentWrite(crc, w.slots);
      ApplyFew(old(log), a, b, b, b);
      assert issued == old(issued) + [a, b];
    }

    /** `redo_mark_done`. */
    method RedoMarkDone(done: bool)
      requires Valid() && |w.slots| < 0x1_0000_0000_0000_0000
      modifies this
      ensures Did(MarkDone(done)) && keyb == old(keyb)
    {
      hide SealedBlock, EncodeHeader, HeaderCrc, Put, Pos, BlockPos, BlockOf;
      WriteLog(redoBlockOffset, SealedBlock(crc, keyb[..]));
      Flush();
      hdr := Sealed(crc, hdr.(numKeys := numKeys, state := if done then 1 else 0));
      w := w.(hdr := hdr);
      WriteLog(0, EncodeHeader(hdr));
      Flush();
      ghost var a, h := CurrentWrite(crc, w.slots), Pwrite(0, EncodeHeader(hdr));
      ApplyFew(old(log), a, a, h, a);
      assert issued == old(issued) + [a, a, h, a];
    }

    /** The state of the copy loops with `j` as the next slot: past the last slot the cursor is due to skip a block. */
    ghost function CopyState(st: Scan, dev: File, cursor: nat, copies: seq<Copied>, j: nat): Scan {
      st.(dev := dev, copies := copies,
          cursor := if j == KEYS_PER_BLOCK then cursor + REDO_LOG_BLOCK_SIZE else cursor)
    }

    /**
     Replay's innermost loop: copies the slots of block `i` from slot `from` on, up to the end marker if it is there.
     */
    method CopyBlock(tags: seq<Tag>, i: nat, from: nat, keybCount: nat, count: nat, start: nat, ghost st: Scan)
      returns (j: nat, cursor: nat, ghost copies: seq<Copied>)
      requires from <= KEYS_PER_BLOCK && count < KEYS_PER_BLOCK
      requires KEYS_PER_BLOCK * i + from <= KEYS_PER_BLOCK * keybCount + count < |tags| && i <= keybCount
      requires st.log == log && st.tags == tags && |tags| % KEYS_PER_BLOCK == 0
      modifies this`dev
      ensures from <= j <= KEYS_PER_BLOCK && KEYS_PER_BLOCK * i + j <= KEYS_PER_BLOCK * keybCount + count
      ensures j == KEYS_PER_BLOCK || (i == keybCount && j == count)
      ensures CopySlots(CopyState(st, old(dev), start, st.copies, from), KEYS_PER_BLOCK * i + from,
                        KEYS_PER_BLOCK * i + j)
           == CopyState(st, dev, cursor, copies, j)
    {
      hide PWrite, PRead, CopySlots;
      j, cursor, copies := from, start, st.copies;
      ghost var lo, x: nat := KEYS_PER_BLOCK * i, KEYS_PER_BLOCK * i + from;
      ghost var first := CopyState(st, dev, start, st.copies, from);
      CopyUnfold(first, x, x);
      while j < KEYS_PER_BLOCK
        invariant from <= j <= KEYS_PER_BLOCK && lo + j <= KEYS_PER_BLOCK * keybCount + count
        invariant CopySlots(first, x, lo + j) == CopyState(st, dev, cursor, copies, j)
      {
        if i == keybCount && j == count {
          break;
        }
        var t := tags[KEYS_PER_BLOCK * i + j];
        CopyUnfold(first, x, lo + j + 1);
        dev := PWrite(dev, t.offset, PRead(log, cursor, t.size));
        copies := copies + [Copied(cursor, t.offset, t.size)];
        cursor := cursor + t.size;
        j := j + 1;
      }
    }

    /** The copy loops of replay: copy the data of one transaction to the device and move the cursor. */
    method CopyTxn(tags: seq<Tag>, beginBlk: nat, beginIdx: nat, keybCount: nat, count: nat, start: nat, ghost st: Scan)
      returns (cursor: nat, ghost copies: seq<Copied>)
      requires beginIdx < KEYS_PER_BLOCK && count < KEYS_PER_BLOCK && |tags| % KEYS_PER_BLOCK == 0
      requires KEYS_PER_BLOCK * beginBlk + beginIdx < KEYS_PER_BLOCK * keybCount + count < |tags|
      requires st.log == log && st.dev == dev && st.tags == tags && st.cursor == start
      modifies this`dev
      ensures var b, g := KEYS_PER_BLOCK * beginBlk + beginIdx, KEYS_PER_BLOCK * keybCount + count;
        CopySlots(st.(cursor := start + Skip(b)), b + 1, g) == st.(dev := dev, cursor := cursor, copies := copies)
    {
      hide CopySlots;
      ghost var g: nat, x: nat := KEYS_PER_BLOCK * keybCount + count, KEYS_PER_BLOCK * beginBlk + beginIdx + 1;
      ghost var first := st.(cursor := start + Skip(x - 1));
      cursor, copies := start, st.copies;
      CopyUnfold(first, x, x);
      var i := beginBlk;
      var txnReplayed := false;
      while i <= keybCount && !txnReplayed
        invariant beginBlk <= i
        invariant !txnReplayed && i == beginBlk ==> cursor == start && dev == st.dev && copies == st.copies
        invariant !txnReplayed && i > beginBlk ==>
                    && i <= keybCount && x <= KEYS_PER_BLOCK * i
                    && CopySlots(first, x, KEYS_PER_BLOCK * i) == st.(dev := dev, cursor := cursor, copies := copies)
        invariant txnReplayed ==> CopySlots(first, x, g) == st.(dev := dev, cursor := cursor, copies := copies)
        decreases keybCount - i, !txnReplayed
      {
        var j := if i == beginBlk then beginIdx + 1 else 0;
        ghost var y := KEYS_PER_BLOCK * i + j;
        ghost var mid := CopyState(st, dev, cursor, copies, j);
        assert CopySlots(first, x, y) == mid;
        j, cursor, copies := CopyBlock(tags, i, j, keybCount, count, cursor, st.(copies := copies));
        CopyConcat(first, x, y, KEYS_PER_BLOCK * i + j);
        if j == KEYS_PER_BLOCK {
          cursor := cursor + REDO_LOG_BLOCK_SIZE;
        } else {
          txnReplayed := true;
        }
        i := i + 1;
      }
    }

    /** The replay loop's variables are those of the scan state `st`. */
    ghost predicate Matches(st: Scan, tags: seq<Tag>, offsets: seq<nat>, heads: seq<BlockHead>,
                            isReplayed: bool, cursor: nat)
      reads this
    {
      && txnBeginIdx < KEYS_PER_BLOCK
      && st == Scan(log, dev, tags, offsets, heads, txnId, txnCsum, KEYS_PER_BLOCK * txnBeginBlk + txnBeginIdx,
                    isReplayed, cursor, st.copies, st.mismatches)
    }

    /** Replay of the transaction whose end marker is in slot `count` of block `keybCount`. */
    method ReplayTxn(tags: seq<Tag>, offsets: seq<nat>, heads: seq<BlockHead>, cursor: nat,
                     keybCount: nat, count: nat, ghost st: Scan)
      returns (tags': seq<Tag>, cursor': nat)
      requires count < KEYS_PER_BLOCK && st.Valid(KEYS_PER_BLOCK * keybCount + count)
      requires st.beginAt < KEYS_PER_BLOCK * keybCount + count < |tags|
      requires Matches(st, tags, offsets, heads, false, cursor)
      modifies this`log, this`dev, this`txnId, this`txnCsum, this`txnBeginBlk, this`txnBeginIdx
      ensures Matches(FinishTxn(crc, st, KEYS_PER_BLOCK * keybCount + count), tags', offsets, heads, false, cursor')
      ensures |tags'| == |tags|
      ensures forall i :: KEYS_PER_BLOCK * keybCount + count < i < |tags| ==> tags'[i] == tags[i]
    {
      hide PWrite, PRead, Xor32, TagCrc, EncodeBlock, CopySlots, BlockOf;
      var b := KEYS_PER_BLOCK * txnBeginBlk + txnBeginIdx;
      ghost var copies;
      cursor', copies := CopyTxn(tags, txnBeginBlk, txnBeginIdx, keybCount, count, cursor, st);
      ghost var copied := st.(dev := dev, cursor := cursor', copies := copies);
      assert copied.Valid(|tags|) && b / KEYS_PER_BLOCK == txnBeginBlk;
      tags' := tags[b := tags[b].(offset := TXN_REPLAYED_CNST)];
      log := PWrite(log, offsets[txnBeginBlk], EncodeBlock(heads[txnBeginBlk], BlockOf(tags', txnBeginBlk)));
      assert Mark(copied) == copied.(tags := tags', log := log);
      txnId, txnCsum, txnBeginBlk, txnBeginIdx := 0, 0, 0, 0;
    }

    /** Replay's step on the tag in slot `count` of block `keybCount`. */
    method ReplaySlot(tags: seq<Tag>, offsets: seq<nat>, heads: seq<BlockHead>, isReplayed: bool, cursor: nat,
                      keybCount: nat, count: nat, ghost st: Scan)
      returns (tags': seq<Tag>, isReplayed': bool, cursor': nat)
      requires count < KEYS_PER_BLOCK && st.Valid(KEYS_PER_BLOCK * keybCount + count)
      requires KEYS_PER_BLOCK * keybCount + count < |tags|
      requires Matches(st, tags, offsets, heads, isReplayed, cursor)
      modifies this`log, this`dev, this`txnId, this`txnCsum, this`txnBeginBlk, this`txnBeginIdx
      ensures Matches(ScanSlot(crc, st, KEYS_PER_BLOCK * keybCount + count), tags', offsets, heads, isReplayed',
                      cursor')
      ensures |tags'| == |tags|
      ensures forall i :: KEYS_PER_BLOCK * keybCount + count < i < |tags| ==> tags'[i] == tags[i]
    {
      hide Xor32, TagCrc, FinishTxn;
      var t := tags[KEYS_PER_BLOCK * keybCount + count];
      tags', isReplayed', cursor' := tags, isReplayed, cursor;
      if t == ZERO_TAG {
      } else if t.size == 0 && t.crc > 0 {
        if txnId == 0 {
          txnId := t.crc;
          if t.offset == TXN_REPLAYED_CNST {
            isReplayed' := true;
          } else {
            isReplayed' := false;
            txnBeginBlk, txnBeginIdx := keybCount, count;
            txnCsum := Xor32(TXN_CHKSM_CNST, TagCrc(crc, t));
          }
        } else if isReplayed {
          txnId := 0;
        } else {
          tags', cursor' := ReplayTxn(tags, offsets, heads, cursor, keybCount, count, st);
        }
      } else if !isReplayed {
        txnCsum := Xor32(txnCsum, TagCrc(crc, t));
      }
    }

    /** Replay's pass over one index block; `next` is where the following block starts. */
    method ReplayBlock(tags: seq<Tag>, offsets: seq<nat>, heads: seq<BlockHead>, isReplayed: bool, cursor: nat,
                       at: nat, ghost st: Scan)
      returns (tags': seq<Tag>, offsets': seq<nat>, heads': seq<BlockHead>, isReplayed': bool, cursor': nat, next: nat)
      requires st.Valid(|st.tags|) && Matches(st, tags, offsets, heads, isReplayed, cursor)
      modifies this`log, this`dev, this`txnId, this`txnCsum, this`txnBeginBlk, this`txnBeginIdx
      ensures Matches(ScanBlock(crc, st, at), tags', offsets', heads', isReplayed', cursor')
      ensures next == NextBlockAt(old(log), at)
    {
      hide PWrite, PRead, DecodeBlock, DecodeHead, ScanSlot;
      var bs := PRead(log, at, REDO_LOG_BLOCK_SIZE);
      var keyb := DecodeBlock(bs);
      ghost var first := ReadBlock(st, at);
      tags', offsets', heads' := tags + keyb, offsets + [at], heads + [DecodeHead(bs)];
      isReplayed', cursor', next := isReplayed, cursor, at + REDO_LOG_BLOCK_SIZE;
      var count := 0;
      ghost var lo: nat, cur := |tags|, first;
      while count < KEYS_PER_BLOCK
        invariant count <= KEYS_PER_BLOCK
        invariant next == at + REDO_LOG_BLOCK_SIZE + SizeUpTo(keyb, count)
        invariant cur == ScanSlots(crc, first, lo, lo + count) && cur.Valid(lo + count)
        invariant |tags'| == lo + KEYS_PER_BLOCK
        invariant forall i :: lo + count <= i < |tags'| ==> tags'[i] == keyb[i - lo]
        invariant Matches(cur, tags', offsets', heads', isReplayed', cursor')
      {
        next := next + keyb[count].size;
        ghost var after := ScanSlot(crc, cur, lo + count);
        tags', isReplayed', cursor' := ReplaySlot(tags', offsets', heads', isReplayed', cursor', |offsets|, count, cur);
        cur := after;
        count := count + 1;
      }
    }

    /** `rfsck_replay`, on any log contents: it returns 1 and does nothing, or does what `ReplayScan` says. */
    method Replay() returns (ret: int)
      modifies this`log, this`dev, this`txnId, this`txnCsum, this`txnBeginBlk, this`txnBeginIdx, this`w
      ensures ret == if Replayable(crc, old(log)) then 0 else 1
      ensures !Replayable(crc, old(log)) ==> unchanged(this)
      ensures Replayable(crc, old(log)) ==>
                var r := ReplayScan(crc, old(log), old(dev));
                && log == r.log && dev == r.dev && txnId == r.txnId && txnCsum == r.csum
                && w == old(w).(txnId := txnId, csum := txnCsum)
    {
      hide HeaderCrc, HeaderOf, ScanBlock, NextBlockAt;
      var h := HeaderOf(log);
      if h.headerCrc != HeaderCrc(crc, h) {
        return 1;
      }
      if h.state != STATE_FINISHED {
        return 1;
      }
      var tags: seq<Tag> := [];
      var offsets: seq<nat> := [];
      var heads: seq<BlockHead> := [];
      var keybCount: nat, at: nat, cursor: nat, isReplayed :=
        0, h.keyOffset, HEADER_SIZE + REDO_LOG_BLOCK_SIZE, false;
      txnId, txnCsum, txnBeginBlk, txnBeginIdx := 0, 0, 0, 0;
      ghost var st := StartScan(log, dev);
      while keybCount <= h.numKeys
        invariant keybCount <= h.numKeys + 1 && w == old(w)
        invariant st.Valid(|st.tags|) && Matches(st, tags, offsets, heads, isReplayed, cursor)
        invariant ScanBlocks(crc, st, at, h.numKeys + 1 - keybCount) == ReplayScan(crc, old(log), old(dev))
      {
        ghost var after := ScanBlock(crc, st, at);
        tags, offsets, heads, isReplayed, cursor, at :=
          ReplayBlock(tags, offsets, heads, isReplayed, cursor, at, st);
        st := after;
        keybCount := keybCount + 1;
      }
      w := w.(txnId := txnId, csum := txnCsum);
      return 0;
    }

    /** `rfsck_open` once the files are open: replay what an earlier session left, then write a fresh header. */
    method Open() returns (ret: int)
      requires Valid() && w.slots == [] && w.txnId == 1 && issued == []
      requires hdr.state != STATE_FINISHED && hdr.keyOffset == HEADER_SIZE && hdr == Sealed(crc, hdr)
      modifies this
      ensures Valid() && w.slots == [] && keyb == old(keyb) && hdr == old(hdr)
      ensures w.txnId == txnId
      ensures txnId == if Replayable(crc, old(log)) then ReplayScan(crc, old(log), old(dev)).txnId else old(txnId)
      ensures dev == Recover(crc, old(log), old(dev))
      ensures log == PWrite(if Replayable(crc, old(log)) then ReplayScan(crc, old(log), old(dev)).log else old(log),
                            0, EncodeHeader(hdr))
      ensures issued == [] && ret == 0
      ensures Opened(crc, w, log) <==> 0 < txnId <= MAX_TXN_ID
      ensures forall ts, ss :: LogImage(crc, old(log), ts, ss) ==> (txnId == 0 <==> OpenAt(ss) < 0)
    {
      hide PWrite, EncodeHeader, ReplayScan, Replayable, HeaderCrc, LogImage, OpenAt, Index, BlockOf, BlockPos, Pos,
           HeaderOf;
      var _ := Replay();
      forall ts, ss | LogImage(crc, old(log), ts, ss)
        ensures Replayable(crc, old(log)) && (ReplayScan(crc, old(log), old(dev)).txnId == 0 <==> OpenAt(ss) < 0)
      {
        CounterLeft(crc, old(log), ts, ss, old(dev));
      }
      HeaderReadBack(crc, log, hdr);
      log := PWrite(log, 0, EncodeHeader(hdr));
      return 0;
    }
  }

  lemma CounterLeft(crc: Crc, f: File, ts: seq<Tag>, ss: seq<Slot>, dev: File)
    requires LogImage(crc, f, ts, ss)
    ensures Replayable(crc, f) && (ReplayScan(crc, f, dev).txnId == 0 <==> OpenAt(ss) < 0)
  {
    hide Replayable, ReplayScan, OpenAt, Holds, Tagged, HeaderOf;
    ImageTagged(crc, f, ts, ss);
    ReplayExact(crc, f, ts, ss, dev);
  }

  /**
   Adding a slot changes one tag of the current block and moves no earlier position. After the last slot of
   a block the next block is empty and goes where the data ends.
   */
  lemma IndexGrows(crc: Crc, ss: seq<Slot>, s: Slot)
    ensures var before, after, n, b := Index(crc, ss), Index(crc, ss + [s]), |ss|, |ss| / KEYS_PER_BLOCK;
      var end := Pos(before, n) + TagOf(crc, s).size;
      && BlockOf(after, b) == BlockOf(before, b)[n % KEYS_PER_BLOCK := TagOf(crc, s)]
      && BlockPos(after, b) == BlockPos(before, b)
      && Pos(after, n) == Pos(before, n)
      && if n % KEYS_PER_BLOCK < KEYS_PER_BLOCK - 1
         then Pos(after, n + 1) == end
         else && (var next := BlockOf(after, b + 1); forall i :: 0 <= i < |next| ==> next[i] == ZERO_TAG)
              && BlockPos(after, b + 1) == end
              && Pos(after, n + 1) == end + REDO_LOG_BLOCK_SIZE
  {
    hide BlockOf, Pos, BlockPos;
    BlockGrows(crc, ss, s);
    PositionsGrow(crc, ss, s);
  }

  lemma BlockGrows(crc: Crc, ss: seq<Slot>, s: Slot)
    ensures var before, after, n, b := Index(crc, ss), Index(crc, ss + [s]), |ss|, |ss| / KEYS_PER_BLOCK;
      && BlockOf(after, b) == BlockOf(before, b)[n % KEYS_PER_BLOCK := TagOf(crc, s)]
      && (n % KEYS_PER_BLOCK == KEYS_PER_BLOCK - 1 ==>
            var next := BlockOf(after, b + 1); forall i :: 0 <= i < |next| ==> next[i] == ZERO_TAG)
  {
    hide TagOf, Tags, Padded;
  }

  lemma PositionsGrow(crc: Crc, ss: seq<Slot>, s: Slot)
    ensures var before, after, n, b := Index(crc, ss), Index(crc, ss + [s]), |ss|, |ss| / KEYS_PER_BLOCK;
      var end := Pos(before, n) + TagOf(crc, s).size;
      && BlockPos(after, b) == BlockPos(before, b)
      && Pos(after, n) == Pos(before, n)
      && if n % KEYS_PER_BLOCK < KEYS_PER_BLOCK - 1
         then Pos(after, n + 1) == end
         else BlockPos(after, b + 1) == end && Pos(after, n + 1) == end + REDO_LOG_BLOCK_SIZE
  {
    hide TagOf, Index;
    var before, after, n, b := Index(crc, ss), Index(crc, ss + [s]), |ss|, |ss| / KEYS_PER_BLOCK;
    SizesAgree(before, after, n);
    SizesAgree(before, after, KEYS_PER_BLOCK * b);
    assert after[n] == TagOf(crc, s);
    PosStep(after, n);
  }
}
