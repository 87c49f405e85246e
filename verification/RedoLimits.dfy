/** Inputs on which the log does not keep its promise: why the hypotheses of the theorems are there. */
module RedoLimits {
  import opened Bytes
  import opened RedoFormat
  import opened RedoLayout
  import opened RedoScan
  import opened RedoReplay
  import opened RedoTheorems
  import opened RedoStep

  /* ----- a partly marked log ----- */

  /** Two committed transactions of one write each. */
  ghost predicate TwoWrites(ss: seq<Slot>) {
    && |ss| == 6
    && ss[0].BeginSlot? && ss[1].DataSlot? && ss[2].EndSlot?
    && ss[3].BeginSlot? && ss[4].DataSlot? && ss[5].EndSlot?
  }

  lemma {:induction false} TwoWritesOpen(ss: seq<Slot>)
    requires TwoWrites(ss)
    ensures OpenAt(ss[..0]) < 0 && OpenAt(ss[..1]) == 0 && OpenAt(ss[..2]) == 0 && OpenAt(ss[..3]) < 0
    ensures OpenAt(ss[..4]) == 3 && OpenAt(ss[..5]) == 3
  {
    assert ss[..2][..1] == ss[..1] && ss[..5][..4] == ss[..4];
  }

  lemma {:induction false} TwoWritesDrift(ts: seq<Tag>, ss: seq<Slot>)
    requires TwoWrites(ss) && |ss| <= |ts| && Marked(ts, 0) && !Marked(ts, 3)
    requires ts[0].size == 0 && ts[1].size > 0 && ts[2].size == 0
    ensures Drift(ts, ss, 5) == ts[1].size && Pos(ts, 3) == Pos(ts, 1) + ts[1].size
    ensures CursorTrue(ts, ss, 5) && Pending(ts, ss, 5) == []
  {
    TwoWritesOpen(ss);
    PosStep(ts, 0);
    PosStep(ts, 1);
    PosStep(ts, 2);
    hide Pos, OpenAt;
    assert Drift(ts, ss, 0) == 0 && CursorTrue(ts, ss, 0) && Pending(ts, ss, 0) == [];
    assert Drift(ts, ss, 1) == 0 && CursorTrue(ts, ss, 1) && Pending(ts, ss, 1) == [];
    assert Drift(ts, ss, 2) == 0 && CursorTrue(ts, ss, 2) && Pending(ts, ss, 2) == [];
    assert Drift(ts, ss, 3) == ts[1].size && CursorTrue(ts, ss, 3) && Pending(ts, ss, 3) == [];
    assert Drift(ts, ss, 4) == ts[1].size && CursorTrue(ts, ss, 4) && Pending(ts, ss, 4) == [];
  }

  /** Behind the last slot the scan is idle. */
  lemma RestIsIdle(crc: Crc, f: File, ts: seq<Tag>, ss: seq<Slot>, dev: File, b: nat, j: nat)
    requires LogImage(crc, f, ts, ss) && |ts| == KEYS_PER_BLOCK * (b + 1) && j <= KEYS_PER_BLOCK
    requires |ss| <= KEYS_PER_BLOCK * b + j
    ensures ReplayScan(crc, f, dev) == ScanTo(crc, f, dev, b, j)
  {
    hide ScanTo, ReplayScan, ScannerAt, OutputAt, Marks, Holds, HeaderOf, Replayable, WellBracketed;
    ReplayReaches(crc, f, ts, ss, dev, b, j);
    ZeroTail(crc, f, dev, b, j, KEYS_PER_BLOCK);
    ScanToEnd(crc, f, dev);
  }

  /** A transaction of one write ends at slot `g`: its bytes are read as far too early as the cursor lags there. */
  lemma LateCopy(crc: Crc, f: File, ts: seq<Tag>, ss: seq<Slot>, dev: File, st: Scan, g: nat, n: nat)
    requires Tagged(crc, ts, ss) && 2 <= g < |ss| <= |ts| && g < KEYS_PER_BLOCK * n && Ends(ss, g) && st.Valid(g)
    requires OpenAt(ss[..g]) == g - 2 && !Marked(ts, g - 2) && Skip(g - 2) == 0 && CursorTrue(ts, ss, g)
    requires Inv(crc, f, ts, ss, dev, st, g, n)
    ensures ss[g - 1].DataSlot? && 0 <= Pos(ts, g - 1) - Drift(ts, ss, g)
    ensures ScanSlot(crc, st, g).dev ==
            PWrite(ApplyTxns(dev, Pending(ts, ss, g)), ss[g - 1].offset,
                   PRead(st.log, Pos(ts, g - 1) - Drift(ts, ss, g), |ss[g - 1].data|))
  {
    hide Pos, Drift, CursorTrue, Pending, OpenAt, Chain, Copies, Mismatches, FilesAt, Tagged, ScanSlot, PWrite, PRead,
         ApplyTxns, DataStored;
    TxnReady(crc, f, ts, ss, st, g, n);
    EndIsMarker(crc, f, ts, ss, st, g, n);
    PosStep(ts, g - 2);
    CopiesOne(crc, st, g);
  }

  lemma {:induction false} ReadShorter(f: File, off: nat, n: nat, m: nat)
    requires n <= m
    ensures PRead(f, off, n) == PRead(f, off, m)[..n]
  {
  }

  /**
   A replay that stopped after marking the first of two transactions cannot be resumed: the second replay
   skips the first transaction without moving the cursor past its data, and writes that data where the second
   transaction's belongs.
   */
  lemma {:induction false} ResumeCorrupts(crc: Crc, f: File, ts: seq<Tag>, ss: seq<Slot>, dev: File)
    requires LogImage(crc, f, ts, ss) && TwoWrites(ss) && |ts| == KEYS_PER_BLOCK
    requires Marked(ts, 0) && !Marked(ts, 3) && |ss[4].data| <= |ss[1].data|
    ensures ReplayScan(crc, f, dev).dev == PWrite(dev, ss[4].offset, ss[1].data[..|ss[4].data|])
    ensures ApplyTxns(dev, Pending(ts, ss, |ss|)) == PWrite(dev, ss[4].offset, ss[4].data)
  {
    hide LogImage, ScannerAt, OutputAt, ScanTo, ScanSlot, ApplyTxns, Pending, PWrite, PRead, Marked, Drift, Pos,
         OpenAt, CursorTrue;
    hide ReplayScan, Tagged, Marks, Ends, BlockPos, FilesAt;
    var st := ScanTo(crc, f, dev, 0, 5);
    ImageTagged(crc, f, ts, ss);
    ReplayReaches(crc, f, ts, ss, dev, 0, 5);
    FirstData(crc, f, ts, ss, st);
    TwoWritesOpen(ss);
    TwoWritesDrift(ts, ss);
    NextPrefix(crc, ts, ss, 5);
    LateCopy(crc, f, ts, ss, dev, st, 5, 1);
    ScanToNext(crc, f, dev, 0, 5);
    RestIsIdle(crc, f, ts, ss, dev, 0, 6);
    PosStep(ts, 3);
    ReadShorter(st.log, Pos(ts, 1), |ss[4].data|, |ss[1].data|);
    NothingApplied(dev);
    SecondIsPending(ts, ss, dev);
  }

  lemma NothingApplied(dev: File)
    ensures ApplyTxns(dev, []) == dev
  {
  }

  lemma FirstData(crc: Crc, f: File, ts: seq<Tag>, ss: seq<Slot>, st: Scan)
    requires Tagged(crc, ts, ss) && TwoWrites(ss) && FilesAt(f, ts, ss, st, 5, 1)
    ensures |ss| <= |ts| && PRead(st.log, Pos(ts, 1), |ss[1].data|) == ss[1].data
    ensures ts[0].size == 0 && ts[1].size == |ss[1].data| > 0 && ts[2].size == 0 && ts[3].size == 0
  {
    hide Pos, PRead, DecodeBlock, Marks, BlockPos, Mismatches, Chain, HeaderOf;
    NextPrefix(crc, ts, ss, 1);
  }

  lemma {:induction false} SecondIsPending(ts: seq<Tag>, ss: seq<Slot>, dev: File)
    requires TwoWrites(ss) && |ss| <= |ts| && Marked(ts, 0) && !Marked(ts, 3)
    ensures ApplyTxns(dev, Pending(ts, ss, |ss|)) == PWrite(dev, ss[4].offset, ss[4].data)
  {
    hide PWrite, OpenAt;
    TwoWritesOpen(ss);
    assert Pending(ts, ss, 0) == [];
    assert Pending(ts, ss, 1) == [];
    assert Pending(ts, ss, 2) == [];
    assert Pending(ts, ss, 3) == [];
    assert Pending(ts, ss, 4) == [];
    assert Pending(ts, ss, 5) == [];
    assert Pending(ts, ss, 6) == [ss[4..5]] && ss[4..5] == [ss[4]];
    assert [[ss[4]]][..0] == [] && [ss[4]][..0] == [];
    assert ApplySlots(dev, [ss[4]]) == PWrite(dev, ss[4].offset, ss[4].data);
  }

  /* ----- an end marker in the last slot of an index block ----- */

  /**
   A transaction that fills the first index block, its end marker in slot 254, and one of a single write behind it.
   */
  ghost predicate FillsBlock(ss: seq<Slot>) {
    && |ss| == 258 && ss[0].BeginSlot? && (forall i :: 1 <= i < 254 ==> ss[i].DataSlot?) && ss[254].EndSlot?
    && ss[255].BeginSlot? && ss[256].DataSlot? && ss[257].EndSlot?
  }

  lemma {:induction false} OpenThrough(ss: seq<Slot>, g: nat)
    requires 1 <= g <= |ss| && ss[0].BeginSlot? && forall i :: 1 <= i < g ==> ss[i].DataSlot?
    ensures OpenAt(ss[..g]) == 0
    decreases g
  {
    if g == 1 {
      assert ss[..1][0] == ss[0];
    } else {
      OpenThrough(ss, g - 1);
      assert ss[..g][..g - 1] == ss[..g - 1];
    }
  }

  /** Nothing ends between slots `g` and `h`, and all data there is in a transaction: no lag is added. */
  lemma {:induction false} NoEnds(ts: seq<Tag>, ss: seq<Slot>, g: nat, h: nat)
    requires g <= h <= |ss| <= |ts| && forall i :: g <= i < h ==> !ss[i].EndSlot? && !Stray(ss, i)
    ensures Drift(ts, ss, h) == Drift(ts, ss, g) && Pending(ts, ss, h) == Pending(ts, ss, g)
    ensures CursorTrue(ts, ss, g) ==> CursorTrue(ts, ss, h)
    decreases h
  {
    hide OpenAt, Marked;
    if g == h {
      assert Drift(ts, ss, h) == Drift(ts, ss, g);
    } else {
      NoEnds(ts, ss, g, h - 1);
    }
  }

  lemma FillsBlockDrift(ts: seq<Tag>, ss: seq<Slot>)
    requires FillsBlock(ss) && |ss| <= |ts| && !Marked(ts, 0)
    ensures OpenAt(ss[..257]) == 255 && Drift(ts, ss, 257) == REDO_LOG_BLOCK_SIZE && CursorTrue(ts, ss, 257)
    ensures Pending(ts, ss, 257) == [ss[1..254]]
  {
    hide Pos, Marked;
    forall i | 1 <= i <= 254
      ensures OpenAt(ss[..i]) == 0
    {
      OpenThrough(ss, i);
    }
    assert ss[..257][..256] == ss[..256];
    NoEnds(ts, ss, 0, 254);
    assert Drift(ts, ss, 255) == REDO_LOG_BLOCK_SIZE;
    NoEnds(ts, ss, 255, 257);
  }

  /**
   An end marker in slot 254 leaves the cursor one index block behind. The next transaction is then written with the
   bytes of the second index block itself: byte 16, the first of the begin marker's offset field, is 0 whatever was
   logged.
   */
  lemma {:induction false} LastSlotCorrupts(crc: Crc, f: File, ts: seq<Tag>, ss: seq<Slot>, dev: File)
    requires LogImage(crc, f, ts, ss) && FillsBlock(ss) && |ts| == 2 * KEYS_PER_BLOCK && Unmarked(ts, ss)
    ensures exists bytes: seq<byte> ::
      && |bytes| == |ss[256].data| && (|bytes| > 16 ==> bytes[16] == 0)
      && ReplayScan(crc, f, dev).dev == PWrite(ApplySlots(dev, ss[1..254]), ss[256].offset, bytes)
    ensures ApplyTxns(dev, Committed(ss)) == PWrite(ApplySlots(dev, ss[1..254]), ss[256].offset, ss[256].data)
    ensures |Committed(ss)| == 2
    ensures var at, once := ss[256].offset + 16, ApplySlots(dev, ss[1..254]);
      |ss[256].data| > 16 && ss[256].data[16] != 0 && ByteAt(dev, at) != 0 && ByteAt(once, at) != 0 ==>
        forall m :: 0 <= m <= 2 ==> ReadsDiffer(ReplayScan(crc, f, dev).dev, ApplyTxns(dev, Committed(ss)[..m]))
  {
    hide LogImage, ApplyTxns, Pending, PWrite, ReplayScan, ApplySlots, Committed, OpenAt, Marked, ByteAt, ReadsDiffer;
    var d, once, txns := ss[256].data, ApplySlots(dev, ss[1..254]), Committed(ss);
    var off: nat := ss[256].offset;
    var bytes := LastSlotRead(crc, f, ts, ss, dev);
    SecondIsApplied(ts, ss, dev);
    PendingAll(ts, ss, |ss|);
    assert ss[..|ss|] == ss;
    BothPending(ts, ss);
    NothingApplied(dev);
    OneApplied(dev, ss[1..254]);
    if |d| > 16 && d[16] != 0 && ByteAt(dev, off + 16) != 0 && ByteAt(once, off + 16) != 0 {
      var got := PWrite(once, off, bytes);
      WritesAt(once, off, bytes, 16);
      WritesAt(once, off, d, 16);
      DiffersAt(got, dev, off + 16);
      DiffersAt(got, once, off + 16);
      DiffersAt(got, PWrite(once, off, d), off + 16);
      assert txns[..0] == [] && txns[..1] == [ss[1..254]] && txns[..2] == txns;
    }
  }

  lemma BothPending(ts: seq<Tag>, ss: seq<Slot>)
    requires FillsBlock(ss) && |ss| <= |ts| && !Marked(ts, 0) && !Marked(ts, 255)
    ensures Pending(ts, ss, |ss|) == [ss[1..254], ss[256..257]]
  {
    hide OpenAt, Pending, Marked;
    FillsBlockDrift(ts, ss);
    Unfold(ts, ss, 257);
  }

  lemma LastSlotRead(crc: Crc, f: File, ts: seq<Tag>, ss: seq<Slot>, dev: File) returns (bytes: seq<byte>)
    requires LogImage(crc, f, ts, ss) && FillsBlock(ss) && |ts| == 2 * KEYS_PER_BLOCK && !Marked(ts, 0)
    requires !Marked(ts, 255)
    ensures |bytes| == |ss[256].data| && (|bytes| > 16 ==> bytes[16] == 0)
    ensures ReplayScan(crc, f, dev).dev == PWrite(ApplySlots(dev, ss[1..254]), ss[256].offset, bytes)
  {
    hide LogImage, ScannerAt, OutputAt, ScanTo, ScanSlot, ApplyTxns, Pending, PWrite, PRead, Marked, Drift, Pos,
         OpenAt, CursorTrue;
    hide ReplayScan, Tagged, Marks, Ends, BlockPos, FilesAt, ApplySlots;
    var st := ScanTo(crc, f, dev, 1, 2);
    ImageTagged(crc, f, ts, ss);
    ReplayReaches(crc, f, ts, ss, dev, 1, 2);
    FillsBlockDrift(ts, ss);
    NextPrefix(crc, ts, ss, 257);
    LateCopy(crc, f, ts, ss, dev, st, 257, 2);
    ScanToNext(crc, f, dev, 1, 2);
    RestIsIdle(crc, f, ts, ss, dev, 1, 3);
    OneApplied(dev, ss[1..254]);
    IndexRead(crc, f, ts, ss, st, |ss[256].data|);
    bytes := PRead(st.log, Pos(ts, 256) - REDO_LOG_BLOCK_SIZE, |ss[256].data|);
  }

  lemma WritesAt(dev: File, off: nat, bs: seq<byte>, i: nat)
    requires i < |bs|
    ensures ByteAt(PWrite(dev, off, bs), off + i) == bs[i]
  {
    assert Landing(bs, off, off + i) == bs[i];
  }

  lemma DiffersAt(f: File, g: File, at: nat)
    requires ByteAt(f, at) != ByteAt(g, at)
    ensures ReadsDiffer(f, g)
  {
  }

  lemma OneApplied(dev: File, txn: seq<Slot>)
    ensures ApplyTxns(dev, [txn]) == ApplySlots(dev, txn)
  {
    hide ApplySlots;
    assert [txn][..0] == [];
    NothingApplied(dev);
  }

  lemma SecondIsApplied(ts: seq<Tag>, ss: seq<Slot>, dev: File)
    requires FillsBlock(ss) && |ss| <= |ts| && !Marked(ts, 0) && !Marked(ts, 255)
    ensures ApplyTxns(dev, Pending(ts, ss, |ss|)) == PWrite(ApplySlots(dev, ss[1..254]), ss[256].offset, ss[256].data)
  {
    hide PWrite, OpenAt, Pending, Marked;
    BothPending(ts, ss);
    var txns := [ss[1..254], ss[256..257]];
    assert txns[..1] == [ss[1..254]] && ss[256..257] == [ss[256]] && [ss[256]][..0] == [];
    OneApplied(dev, ss[1..254]);
    assert ApplySlots(ApplySlots(dev, ss[1..254]), [ss[256]]) ==
           PWrite(ApplySlots(dev, ss[1..254]), ss[256].offset, ss[256].data);
  }

  /** Where the last transaction is read from, one block before its data, the second index block lies. */
  lemma IndexRead(crc: Crc, f: File, ts: seq<Tag>, ss: seq<Slot>, st: Scan, n: nat)
    requires Tagged(crc, ts, ss) && FillsBlock(ss) && |ts| == 2 * KEYS_PER_BLOCK && !Marked(ts, 255)
    requires FilesAt(f, ts, ss, st, 257, 2)
    ensures 0 <= Pos(ts, 256) - REDO_LOG_BLOCK_SIZE
    ensures n > 16 ==> PRead(st.log, Pos(ts, 256) - REDO_LOG_BLOCK_SIZE, n)[16] == 0
  {
    hide DecodeBlock, Marks, HeaderOf, WellBracketed, SizeUpTo, PRead;
    PosStep(ts, 255);
    assert Pos(ts, 256) - REDO_LOG_BLOCK_SIZE == BlockPos(ts, 1);
    var us, bs := Marks(ts, ss, 257), PRead(st.log, BlockPos(ts, 1), REDO_LOG_BLOCK_SIZE);
    MarksOpen(ts, ss);
    assert DecodeBlock(bs) == BlockOf(us, 1);
    assert BlockOf(us, 1)[0] == ts[255];
    FirstTagZero(bs);
    if n > 16 {
      ReadsSame(st.log, BlockPos(ts, 1), n);
    }
  }

  lemma ReadsSame(f: File, at: nat, n: nat)
    requires n > 16
    ensures PRead(f, at, n)[16] == PRead(f, at, REDO_LOG_BLOCK_SIZE)[16]
  {
  }

  /** The transaction still open is not marked. */
  lemma MarksOpen(ts: seq<Tag>, ss: seq<Slot>)
    requires FillsBlock(ss) && |ss| <= |ts|
    ensures Marks(ts, ss, 257)[255] == ts[255]
  {
    hide OpenAt, Marks;
    OpenThrough(ss, 254);
    Unfold(ts, ss, 256);
    Unfold(ts, ss, 255);
  }

  /** A block whose first tag has offset 0 has a zero byte there. */
  lemma FirstTagZero(bs: seq<byte>)
    requires |bs| == REDO_LOG_BLOCK_SIZE && DecodeBlock(bs)[0].offset == 0
    ensures bs[16] == 0
  {
    var tag := bs[TAG_SIZE..][..TAG_SIZE];
    assert DecodeBlock(bs)[0] == DecodeTag(tag);
    assert tag[..8][0] == bs[16];
  }
}
