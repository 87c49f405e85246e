/**
 What replay does on a log written by the library, with any of its transactions already marked "replayed".

 Replay keeps one cursor for the data. The cursor is right at the start of a transaction exactly when the
 drift defined below is zero: a transaction that is skipped because it is marked leaves the cursor behind by
 its whole extent, an end marker in the last slot of an index block leaves it behind by the next block, and data
 outside any transaction leaves it behind by its size.
 */
module RedoReplay {
  import opened Bytes
  import opened RedoFormat
  import opened RedoLayout
  import opened RedoScan

  /** `ts` are the index slots of a log with slots `ss`, up to "replayed" marks on begin markers. */
  ghost predicate Tagged(crc: Crc, ts: seq<Tag>, ss: seq<Slot>) {
    && |ss| <= |ts| && |ts| % KEYS_PER_BLOCK == 0 && WellBracketed(ss)
    && (forall i :: 0 <= i < |ss| ==>
          ts[i] == TagOf(crc, ss[i]) || (ss[i].BeginSlot? && ts[i] == Tag(TXN_REPLAYED_CNST, 0, ss[i].id)))
    && (forall i :: |ss| <= i < |ts| ==> ts[i] == ZERO_TAG)
  }

  predicate Marked(ts: seq<Tag>, i: nat)
    requires i < |ts|
  {
    ts[i].offset == TXN_REPLAYED_CNST
  }

  /** Slot `e` ends a transaction, which began at `OpenAt(ss[..e])`. */
  predicate Ends(ss: seq<Slot>, e: nat)
    requires e < |ss|
  {
    ss[e].EndSlot? && OpenAt(ss[..e]) >= 0
  }

  /** Slot `e` holds data that belongs to no transaction. */
  predicate Stray(ss: seq<Slot>, e: nat)
    requires e < |ss|
  {
    ss[e].DataSlot? && OpenAt(ss[..e]) < 0
  }

  /** How far the cursor lags behind the data once slots `0..g` have been scanned. */
  function Drift(ts: seq<Tag>, ss: seq<Slot>, g: nat): (d: int)
    requires g <= |ss| <= |ts|
  {
    if g == 0 then 0
    else if Stray(ss, g - 1) then Drift(ts, ss, g - 1) + ts[g - 1].size + Skip(g - 1)
    else if !Ends(ss, g - 1) then Drift(ts, ss, g - 1)
    else
      var b := OpenAt(ss[..g - 1]);
      Drift(ts, ss, g - 1) + if Marked(ts, b) then Pos(ts, g) - Pos(ts, b) else Skip(g - 1)
  }

  /** Every transaction that is replayed and has data starts with the cursor on its data. */
  ghost predicate CursorTrue(ts: seq<Tag>, ss: seq<Slot>, g: nat)
    requires g <= |ss| <= |ts|
  {
    g == 0 ||
    (&& CursorTrue(ts, ss, g - 1)
     && (Ends(ss, g - 1) && !Marked(ts, OpenAt(ss[..g - 1])) && OpenAt(ss[..g - 1]) + 1 < g - 1 ==>
           Drift(ts, ss, g - 1) == 0))
  }

  /** The committed transactions not marked "replayed". */
  function Pending(ts: seq<Tag>, ss: seq<Slot>, g: nat): seq<seq<Slot>>
    requires g <= |ss| <= |ts|
  {
    if g == 0 then []
    else if Ends(ss, g - 1) && !Marked(ts, OpenAt(ss[..g - 1]))
    then Pending(ts, ss, g - 1) + [ss[OpenAt(ss[..g - 1]) + 1..g - 1]]
    else Pending(ts, ss, g - 1)
  }

  /** The copies of slots `x..g` made with the cursor `d` bytes behind. */
  function TxnCopies(ts: seq<Tag>, x: nat, g: nat, d: int): (cs: seq<Copied>)
    requires x <= g <= |ts|
    ensures |cs| == g - x
    decreases g
  {
    if x == g then []
    else TxnCopies(ts, x, g - 1, d) + [Copied(Pos(ts, g - 1) - d, ts[g - 1].offset, ts[g - 1].size)]
  }

  /** The copies replay makes, and (with `lag` false) the copies it should make: each slot from its own position. */
  function Copies(ts: seq<Tag>, ss: seq<Slot>, g: nat, lag: bool): (cs: seq<Copied>)
    requires g <= |ss| <= |ts|
  {
    if g == 0 then []
    else if Ends(ss, g - 1) && !Marked(ts, OpenAt(ss[..g - 1]))
    then
      var d := if lag then Drift(ts, ss, g - 1) else 0;
      Copies(ts, ss, g - 1, lag) + TxnCopies(ts, OpenAt(ss[..g - 1]) + 1, g - 1, d)
    else Copies(ts, ss, g - 1, lag)
  }

  /** The checksum of the transaction that ends at slot `e`, which its end marker should hold. */
  function TxnCsum(crc: Crc, ss: seq<Slot>, e: nat): u32
    requires e < |ss| && ss[e].EndSlot?
  {
    Xor32(Chain(crc, ss[..e]), TagCrc(crc, Tag(0, 0, ss[e].id)))
  }

  /** How many transactions before slot `g` that are not marked have an end marker with another checksum. */
  function Mismatches(crc: Crc, ts: seq<Tag>, ss: seq<Slot>, g: nat): nat
    requires g <= |ss| <= |ts|
  {
    if g == 0 then 0
    else
      Mismatches(crc, ts, ss, g - 1) +
      if Ends(ss, g - 1) && !Marked(ts, OpenAt(ss[..g - 1])) && ss[g - 1].csum != TxnCsum(crc, ss, g - 1) then 1 else 0
  }

  /** The index after the transactions committed in `ss[..g]` have been marked. */
  function Marks(ts: seq<Tag>, ss: seq<Slot>, g: nat): (us: seq<Tag>)
    requires g <= |ss| <= |ts|
    ensures |us| == |ts|
    ensures forall i :: 0 <= i < |ts| ==> us[i] == ts[i] || us[i] == ts[i].(offset := TXN_REPLAYED_CNST)
    ensures forall i :: 0 <= i < |ts| && (i >= g || !ss[i].BeginSlot?) ==> us[i] == ts[i]
  {
    if g == 0 then ts
    else if Ends(ss, g - 1) then
      var b := OpenAt(ss[..g - 1]);
      Marks(ts, ss, g - 1)[b := ts[b].(offset := TXN_REPLAYED_CNST)]
    else Marks(ts, ss, g - 1)
  }

  /** The file holds the index blocks `us` at the positions given by `ts`, and all data. */
  ghost predicate Holds(f: File, ts: seq<Tag>, us: seq<Tag>, ss: seq<Slot>) {
    && |us| == |ts| && |ts| % KEYS_PER_BLOCK == 0
    && (forall b :: 0 <= b < |ts| / KEYS_PER_BLOCK ==>
          DecodeBlock(PRead(f, BlockPos(ts, b), REDO_LOG_BLOCK_SIZE)) == BlockOf(us, b))
    && DataStored(f, ts, ss)
  }

  /* ----- the invariant of the scan ----- */

  /** The scanner's own variables after slots `0..g`. */
  ghost predicate ScannerAt(crc: Crc, ts: seq<Tag>, ss: seq<Slot>, st: Scan, g: nat)
    requires g <= |ss| <= |ts|
  {
    var b := OpenAt(ss[..g]);
    if b < 0 then st.txnId == 0 && st.cursor + Drift(ts, ss, g) == Pos(ts, g)
    else
      && st.txnId == ss[b].id && st.replayed == Marked(ts, b)
      && st.cursor + Drift(ts, ss, g) == Pos(ts, b)
      && (!st.replayed ==> st.beginAt == b && st.csum == Chain(crc, ss[..g]))
  }

  /** The index blocks read so far, and what the log file holds. */
  ghost predicate FilesAt(f: File, ts: seq<Tag>, ss: seq<Slot>, st: Scan, g: nat, n: nat)
    requires g <= |ss| <= |ts|
  {
    && |st.offsets| == n && |st.heads| == n && |st.tags| == KEYS_PER_BLOCK * n <= |ts|
    && (forall b :: 0 <= b < n ==> st.offsets[b] == BlockPos(ts, b))
    && (forall i :: 0 <= i < |st.tags| ==> st.tags[i] == Marks(ts, ss, g)[i])
    && Holds(st.log, ts, Marks(ts, ss, g), ss)
    && HeaderOf(st.log) == HeaderOf(f)
  }

  /** What has been copied, to where, and how many checksums disagreed. */
  ghost predicate OutputAt(crc: Crc, f: File, ts: seq<Tag>, ss: seq<Slot>, dev: File, st: Scan, g: nat)
    requires g <= |ss| <= |ts|
  {
    && st.copies == Copies(ts, ss, g, true)
    && (CursorTrue(ts, ss, g) ==> st.dev == ApplyTxns(dev, Pending(ts, ss, g)))
    && st.mismatches == Mismatches(crc, ts, ss, g)
    && (Pending(ts, ss, g) == [] ==> st.log == f)
  }

  ghost predicate Inv(crc: Crc, f: File, ts: seq<Tag>, ss: seq<Slot>, dev: File, st: Scan, g: nat, n: nat)
    requires g <= |ss| <= |ts|
  {
    ScannerAt(crc, ts, ss, st, g) && FilesAt(f, ts, ss, st, g, n) && OutputAt(crc, f, ts, ss, dev, st, g)
  }

  lemma LastApplied(dev: File, ss: seq<Slot>, x: nat, g: nat)
    requires x < g <= |ss|
    ensures ApplySlots(dev, ss[x..g]) == ApplySlot(ApplySlots(dev, ss[x..g - 1]), ss[g - 1])
  {
    assert ss[x..g][..g - 1 - x] == ss[x..g - 1];
  }

  /** Copying one transaction: where it reads from and, when the cursor is right, what the device becomes. */
  lemma {:induction false} CopyEffect(ts: seq<Tag>, ss: seq<Slot>, st: Scan, x: nat, g: nat, d: int)
    requires x <= g <= |ss| <= |ts| && g <= |st.tags|
    requires forall i :: x <= i < g ==> ss[i].DataSlot? && st.tags[i] == ts[i]
    requires forall i :: x <= i < g ==> ts[i].offset == ss[i].offset && ts[i].size == |ss[i].data|
    requires st.cursor + d == Pos(ts, x) && DataStored(st.log, ts, ss)
    ensures var r := CopySlots(st, x, g);
      && r.cursor + d == Pos(ts, g)
      && r.copies == st.copies + TxnCopies(ts, x, g, d)
      && (d == 0 ==> r.dev == ApplySlots(st.dev, ss[x..g]))
  {
    hide PWrite, PRead, Pos, CopySlots, ApplySlots;
    CopyUnfold(st, x, g);
    if x == g {
      NoSlots(st.dev, ss[x..g]);
    } else {
      CopyEffect(ts, ss, st, x, g - 1, d);
      PosStep(ts, g - 1);
      LastApplied(st.dev, ss, x, g);
      assert PRead(st.log, Pos(ts, g - 1), |ss[g - 1].data|) == ss[g - 1].data;
    }
  }

  /** Like `Holds`, with index block `k` still to be written. */
  ghost predicate HoldsBut(f: File, ts: seq<Tag>, us: seq<Tag>, ss: seq<Slot>, k: nat) {
    && |us| == |ts| && |ts| % KEYS_PER_BLOCK == 0
    && (forall b :: 0 <= b < |ts| / KEYS_PER_BLOCK && b != k ==>
          DecodeBlock(PRead(f, BlockPos(ts, b), REDO_LOG_BLOCK_SIZE)) == BlockOf(us, b))
    && DataStored(f, ts, ss)
  }

  /** Writing index block `k` touches no other block, no data and not the header. */
  lemma BlockRewrite(f: File, ts: seq<Tag>, us: seq<Tag>, ss: seq<Slot>, k: nat, head: BlockHead)
    requires HoldsBut(f, ts, us, ss, k) && KEYS_PER_BLOCK * (k + 1) <= |ts|
    requires forall i :: 0 <= i < |ss| && ss[i].DataSlot? ==> ts[i].size == |ss[i].data|
    ensures var g := PWrite(f, BlockPos(ts, k), EncodeBlock(head, BlockOf(us, k)));
      Holds(g, ts, us, ss) && HeaderOf(g) == HeaderOf(f)
  {
    hide PRead, PWrite, EncodeBlock, DecodeBlock, DecodeHeader;
    var block := EncodeBlock(head, BlockOf(us, k));
    var g := PWrite(f, BlockPos(ts, k), block);
    BlockRoundTrip(head, BlockOf(us, k));
    ReadBack(f, BlockPos(ts, k), block);
    ReadElsewhere(f, BlockPos(ts, k), block, 0, HEADER_SIZE);
    hide Pos, BlockPos;
    forall b | 0 <= b < |ts| / KEYS_PER_BLOCK && b != k
      ensures DecodeBlock(PRead(g, BlockPos(ts, b), REDO_LOG_BLOCK_SIZE)) == BlockOf(us, b)
    {
      if b < k { BlocksApart(ts, b, k); } else { BlocksApart(ts, k, b); }
      ReadElsewhere(f, BlockPos(ts, k), block, BlockPos(ts, b), REDO_LOG_BLOCK_SIZE);
    }
    forall i | 0 <= i < |ss| && ss[i].DataSlot?
      ensures PRead(g, Pos(ts, i), |ss[i].data|) == ss[i].data
    {
      BlockApartFromData(ts, k, i);
      ReadElsewhere(f, BlockPos(ts, k), block, Pos(ts, i), |ss[i].data|);
    }
  }

  /** Changing tags of block `k` only. */
  lemma OtherBlocksHold(f: File, ts: seq<Tag>, us: seq<Tag>, vs: seq<Tag>, ss: seq<Slot>, k: nat)
    requires Holds(f, ts, us, ss) && |vs| == |ts|
    requires forall i :: 0 <= i < |ts| && i / KEYS_PER_BLOCK != k ==> vs[i] == us[i]
    ensures HoldsBut(f, ts, vs, ss, k)
  {
    hide PRead, DecodeBlock, BlockPos, Pos;
    forall b | 0 <= b < |ts| / KEYS_PER_BLOCK && b != k
      ensures BlockOf(vs, b) == BlockOf(us, b)
    {
    }
  }

  /** Marking rewrites one index block and nothing else. */
  lemma MarkEffect(ts: seq<Tag>, ss: seq<Slot>, st: Scan, us: seq<Tag>, n: nat)
    requires Holds(st.log, ts, us, ss) && |ss| <= |ts|
    requires |st.offsets| == n && |st.heads| == n && |st.tags| == KEYS_PER_BLOCK * n <= |ts|
    requires forall b :: 0 <= b < n ==> st.offsets[b] == BlockPos(ts, b)
    requires forall i :: 0 <= i < |st.tags| ==> st.tags[i] == us[i]
    requires forall i :: 0 <= i < |ss| && ss[i].DataSlot? ==> ts[i].size == |ss[i].data|
    requires st.beginAt < |st.tags| && st.Valid(|st.tags|)
    ensures var vs := us[st.beginAt := us[st.beginAt].(offset := TXN_REPLAYED_CNST)];
      && (forall i :: 0 <= i < |st.tags| ==> Mark(st).tags[i] == vs[i])
      && Holds(Mark(st).log, ts, vs, ss)
    ensures HeaderOf(Mark(st).log) == HeaderOf(st.log)
  {
    hide Holds, HoldsBut, EncodeBlock, PWrite, HeaderOf, BlockPos;
    HoldsWhole(st.log, ts, us, ss);
    var vs := us[st.beginAt := us[st.beginAt].(offset := TXN_REPLAYED_CNST)];
    var k := st.beginAt / KEYS_PER_BLOCK;
    SameBlockOf(Mark(st).tags, vs, k);
    OtherBlocksHold(st.log, ts, us, vs, ss, k);
    BlockRewrite(st.log, ts, vs, ss, k, st.heads[k]);
  }

  lemma SameBlockOf(ts: seq<Tag>, us: seq<Tag>, k: nat)
    requires KEYS_PER_BLOCK * (k + 1) <= |ts| <= |us| && forall i :: 0 <= i < |ts| ==> ts[i] == us[i]
    ensures BlockOf(ts, k) == BlockOf(us, k)
  {
  }

  lemma HoldsWhole(f: File, ts: seq<Tag>, us: seq<Tag>, ss: seq<Slot>)
    requires Holds(f, ts, us, ss)
    ensures |us| == |ts| && |ts| % KEYS_PER_BLOCK == 0
  {
  }

  /* ----- one slot ----- */

  /** Every defined quantity after slot `g`, in terms of its value before. */
  lemma NextPrefix(crc: Crc, ts: seq<Tag>, ss: seq<Slot>, g: nat)
    requires Tagged(crc, ts, ss) && g < |ss|
    ensures match ss[g]
      case BeginSlot(id) => OpenAt(ss[..g]) < 0 && id > 0 && OpenAt(ss[..g + 1]) == g && !Ends(ss, g)
      case DataSlot(_, data) => data != [] && OpenAt(ss[..g + 1]) == OpenAt(ss[..g]) && !Ends(ss, g)
      case EndSlot(id, _) => OpenAt(ss[..g]) >= 0 && id > 0 && OpenAt(ss[..g + 1]) < 0 && Ends(ss, g)
    ensures match ss[g]
      case BeginSlot(id) => Chain(crc, ss[..g + 1]) == Xor32(TXN_CHKSM_CNST, TagCrc(crc, Tag(0, 0, id)))
      case DataSlot(_, _) => Chain(crc, ss[..g + 1]) == Xor32(Chain(crc, ss[..g]), TagCrc(crc, TagOf(crc, ss[g])))
      case EndSlot(_, _) => true
  {
    hide Xor32, TagCrc, TagOf;
    assert ss[..g + 1][..g] == ss[..g];
    PrefixesBracketed(crc, ss, g + 1);
  }

  lemma Unfold(ts: seq<Tag>, ss: seq<Slot>, g: nat)
    requires g < |ss| <= |ts|
    ensures Stray(ss, g) ==> Drift(ts, ss, g + 1) == Drift(ts, ss, g) + ts[g].size + Skip(g)
    ensures !Ends(ss, g) && !Stray(ss, g) ==> Drift(ts, ss, g + 1) == Drift(ts, ss, g)
    ensures !Ends(ss, g) ==>
      && Marks(ts, ss, g + 1) == Marks(ts, ss, g)
      && Copies(ts, ss, g + 1, true) == Copies(ts, ss, g, true) && Pending(ts, ss, g + 1) == Pending(ts, ss, g)
    ensures Ends(ss, g) ==> var b := OpenAt(ss[..g]);
      && Drift(ts, ss, g + 1) == Drift(ts, ss, g) + (if Marked(ts, b) then Pos(ts, g + 1) - Pos(ts, b) else Skip(g))
      && Marks(ts, ss, g + 1) == Marks(ts, ss, g)[b := ts[b].(offset := TXN_REPLAYED_CNST)]
    ensures Ends(ss, g) && Marked(ts, OpenAt(ss[..g])) ==>
      Copies(ts, ss, g + 1, true) == Copies(ts, ss, g, true) && Pending(ts, ss, g + 1) == Pending(ts, ss, g)
    ensures Ends(ss, g) && !Marked(ts, OpenAt(ss[..g])) ==> var b := OpenAt(ss[..g]);
      && Copies(ts, ss, g + 1, true) == Copies(ts, ss, g, true) + TxnCopies(ts, b + 1, g, Drift(ts, ss, g))
      && Pending(ts, ss, g + 1) == Pending(ts, ss, g) + [ss[b + 1..g]]
      && (CursorTrue(ts, ss, g + 1) && b + 1 < g ==> Drift(ts, ss, g) == 0)
    ensures CursorTrue(ts, ss, g + 1) ==> CursorTrue(ts, ss, g)
  {
    hide Pos, TxnCopies, OpenAt;
  }

  lemma UnfoldMismatches(crc: Crc, ts: seq<Tag>, ss: seq<Slot>, g: nat)
    requires g < |ss| <= |ts|
    ensures Mismatches(crc, ts, ss, g + 1) == Mismatches(crc, ts, ss, g) +
              if Ends(ss, g) && !Marked(ts, OpenAt(ss[..g])) && ss[g].csum != TxnCsum(crc, ss, g) then 1 else 0
  {
    hide OpenAt, TxnCsum;
  }

  lemma BeginStep(crc: Crc, f: File, ts: seq<Tag>, ss: seq<Slot>, dev: File, st: Scan, g: nat, n: nat)
    requires Tagged(crc, ts, ss) && g < |ss| && g < KEYS_PER_BLOCK * n && ss[g].BeginSlot?
    requires Inv(crc, f, ts, ss, dev, st, g, n) && st.Valid(g)
    ensures Inv(crc, f, ts, ss, dev, ScanSlot(crc, st, g), g + 1, n)
  {
    hide Holds, Pos, Xor32, TagCrc, FinishTxn, Drift, Marks, Copies, Pending, CursorTrue, OpenAt, Chain, Mismatches;
    NextPrefix(crc, ts, ss, g);
    Unfold(ts, ss, g);
    UnfoldMismatches(crc, ts, ss, g);
  }

  lemma DataStep(crc: Crc, f: File, ts: seq<Tag>, ss: seq<Slot>, dev: File, st: Scan, g: nat, n: nat)
    requires Tagged(crc, ts, ss) && g < |ss| && g < KEYS_PER_BLOCK * n && ss[g].DataSlot?
    requires Inv(crc, f, ts, ss, dev, st, g, n) && st.Valid(g)
    ensures Inv(crc, f, ts, ss, dev, ScanSlot(crc, st, g), g + 1, n)
  {
    hide Holds, Pos, Xor32, TagCrc, FinishTxn, Drift, Marks, Copies, Pending, CursorTrue, OpenAt, Chain, Mismatches;
    NextPrefix(crc, ts, ss, g);
    Unfold(ts, ss, g);
    UnfoldMismatches(crc, ts, ss, g);
    PosStep(ts, g);
  }

  /** The transaction that ends at slot `g` has its data slots in memory and their data on file. */
  lemma TxnReady(crc: Crc, f: File, ts: seq<Tag>, ss: seq<Slot>, st: Scan, g: nat, n: nat)
    requires Tagged(crc, ts, ss) && g < |ss| && g < KEYS_PER_BLOCK * n && Ends(ss, g) && FilesAt(f, ts, ss, st, g, n)
    ensures var b := OpenAt(ss[..g]);
      && g <= |st.tags| && |ss| <= |ts| && ts[b].size == 0 && DataStored(st.log, ts, ss)
      && forall i :: b < i < g ==>
           ss[i].DataSlot? && st.tags[i] == ts[i] && ts[i].offset == ss[i].offset && ts[i].size == |ss[i].data|
  {
    hide Pos, Drift, Marks, OpenAt, DecodeBlock, WellBracketed;
    OpenSlotsAreData(ss[..g]);
    assert forall i :: OpenAt(ss[..g]) <= i < g ==> ss[..g][i] == ss[i];
  }

  /** The copy made at an end marker. */
  lemma FinishCopy(crc: Crc, f: File, ts: seq<Tag>, ss: seq<Slot>, st: Scan, g: nat, n: nat)
    requires Tagged(crc, ts, ss) && g < |ss| && g < KEYS_PER_BLOCK * n && ss[g].EndSlot?
    requires Ends(ss, g) && !Marked(ts, OpenAt(ss[..g])) && st.Valid(g)
    requires ScannerAt(crc, ts, ss, st, g) && FilesAt(f, ts, ss, st, g, n)
    ensures var b := OpenAt(ss[..g]);
      var r := CopySlots(st.(cursor := st.cursor + Skip(st.beginAt)), st.beginAt + 1, g);
      && st.beginAt == b
      && r.cursor + Drift(ts, ss, g) == Pos(ts, g)
      && r.copies == st.copies + TxnCopies(ts, b + 1, g, Drift(ts, ss, g))
      && (b + 1 == g || Drift(ts, ss, g) == 0 ==> r.dev == ApplySlots(st.dev, ss[b + 1..g]))
  {
    hide Pos, CopySlots, Drift, OpenAt, Chain, TxnCopies, ApplySlots, FilesAt, Tagged, DataStored;
    var b := OpenAt(ss[..g]);
    var st1 := st.(cursor := st.cursor + Skip(b));
    TxnReady(crc, f, ts, ss, st, g, n);
    PosStep(ts, b);
    CopyEffect(ts, ss, st1, b + 1, g, Drift(ts, ss, g));
    if b + 1 == g {
      CopyUnfold(st1, g, g);
      NoSlots(st.dev, ss[g..g]);
    }
  }

  lemma NoSlots(dev: File, ss: seq<Slot>)
    requires ss == []
    ensures ApplySlots(dev, ss) == dev
  {
  }

  lemma MarkKeeps(st: Scan)
    requires st.Valid(|st.tags|) && st.beginAt < |st.tags|
    ensures Mark(st) == st.(tags := Mark(st).tags, log := Mark(st).log)
  {
  }

  lemma FinishScanner(crc: Crc, f: File, ts: seq<Tag>, ss: seq<Slot>, st: Scan, g: nat, n: nat)
    requires Tagged(crc, ts, ss) && g < |ss| && g < KEYS_PER_BLOCK * n && ss[g].EndSlot?
    requires Ends(ss, g) && !Marked(ts, OpenAt(ss[..g])) && st.Valid(g)
    requires ScannerAt(crc, ts, ss, st, g) && FilesAt(f, ts, ss, st, g, n)
    ensures ScannerAt(crc, ts, ss, FinishTxn(crc, st, g), g + 1)
  {
    hide Pos, CopySlots, Xor32, TagCrc, Chain, Mark, FilesAt, TxnCopies, ApplySlots, Drift, OpenAt, Mismatches, Marks,
         Copies, Pending;
    FinishCopy(crc, f, ts, ss, st, g, n);
    NextPrefix(crc, ts, ss, g);
    Unfold(ts, ss, g);
    MarkKeeps(CopySlots(st.(cursor := st.cursor + Skip(st.beginAt)), st.beginAt + 1, g));
    PosStep(ts, g);
  }

  lemma TaggedSizes(crc: Crc, ts: seq<Tag>, ss: seq<Slot>)
    requires Tagged(crc, ts, ss)
    ensures |ss| <= |ts| && forall i :: 0 <= i < |ss| && ss[i].DataSlot? ==> ts[i].size == |ss[i].data|
  {
  }

  lemma FinishFiles(crc: Crc, f: File, ts: seq<Tag>, ss: seq<Slot>, st: Scan, g: nat, n: nat)
    requires Tagged(crc, ts, ss) && g < |ss| && g < KEYS_PER_BLOCK * n && ss[g].EndSlot?
    requires Ends(ss, g) && !Marked(ts, OpenAt(ss[..g])) && st.Valid(g)
    requires ScannerAt(crc, ts, ss, st, g) && FilesAt(f, ts, ss, st, g, n)
    ensures FilesAt(f, ts, ss, FinishTxn(crc, st, g), g + 1, n)
  {
    hide Pos, CopySlots, Xor32, TagCrc, Chain, Mark, Holds, HeaderOf, BlockPos, Drift, Marks, OpenAt, Tagged;
    hide TxnCopies, CursorTrue, Copies, Pending;
    TaggedSizes(crc, ts, ss);
    Unfold(ts, ss, g);
    UnfoldMismatches(crc, ts, ss, g);
    var b := st.beginAt;
    assert b == OpenAt(ss[..g]);
    hide ScannerAt, Ends;
    var copied := CopySlots(st.(cursor := st.cursor + Skip(b)), b + 1, g);
    MarkEffect(ts, ss, copied, Marks(ts, ss, g), n);
    MarkKeeps(copied);
  }

  lemma FinishOutput(crc: Crc, f: File, ts: seq<Tag>, ss: seq<Slot>, dev: File, st: Scan, g: nat, n: nat)
    requires Tagged(crc, ts, ss) && g < |ss| && g < KEYS_PER_BLOCK * n && ss[g].EndSlot?
    requires Ends(ss, g) && !Marked(ts, OpenAt(ss[..g])) && st.Valid(g)
    requires Inv(crc, f, ts, ss, dev, st, g, n)
    ensures OutputAt(crc, f, ts, ss, dev, FinishTxn(crc, st, g), g + 1)
  {
    hide Pos, CopySlots, Xor32, TagCrc, Mark, FilesAt, TxnCopies, ApplySlots, ApplyTxns, Drift, Marks, OpenAt, Chain,
         Mismatches, Copies, Pending, CursorTrue, Tagged, Skip;
    FinishCopy(crc, f, ts, ss, st, g, n);
    TaggedSizes(crc, ts, ss);
    Unfold(ts, ss, g);
    UnfoldMismatches(crc, ts, ss, g);
    var b := st.beginAt;
    MarkKeeps(CopySlots(st.(cursor := st.cursor + Skip(b)), b + 1, g));
    OneMore(dev, Pending(ts, ss, g), ss[b + 1..g]);
    FinishChecksum(crc, f, ts, ss, st, g, n);
  }

  lemma OneMore(dev: File, txns: seq<seq<Slot>>, txn: seq<Slot>)
    ensures ApplyTxns(dev, txns + [txn]) == ApplySlots(ApplyTxns(dev, txns), txn)
  {
    assert (txns + [txn])[..|txns|] == txns;
  }

  /** At an end marker the running checksum is that of the transaction. */
  lemma FinishChecksum(crc: Crc, f: File, ts: seq<Tag>, ss: seq<Slot>, st: Scan, g: nat, n: nat)
    requires Tagged(crc, ts, ss) && g < |ss| && g < KEYS_PER_BLOCK * n && ss[g].EndSlot?
    requires Ends(ss, g) && !Marked(ts, OpenAt(ss[..g])) && st.Valid(g)
    requires ScannerAt(crc, ts, ss, st, g) && FilesAt(f, ts, ss, st, g, n)
    ensures g < |st.tags| && st.tags[g].offset == ss[g].csum
    ensures Xor32(st.csum, TagCrc(crc, st.tags[g].(offset := 0))) == TxnCsum(crc, ss, g)
  {
    hide Pos, Xor32, TagCrc, Holds, Drift, Marks, OpenAt, Chain, Mismatches, WellBracketed;
    NextPrefix(crc, ts, ss, g);
    assert st.tags[g] == ts[g];
  }

  lemma EndStep(crc: Crc, f: File, ts: seq<Tag>, ss: seq<Slot>, dev: File, st: Scan, g: nat, n: nat)
    requires Tagged(crc, ts, ss) && g < |ss| && g < KEYS_PER_BLOCK * n && ss[g].EndSlot?
    requires Inv(crc, f, ts, ss, dev, st, g, n) && st.Valid(g)
    ensures Inv(crc, f, ts, ss, dev, ScanSlot(crc, st, g), g + 1, n)
  {
    hide Holds, Pos, Xor32, TagCrc, FinishTxn, Drift, Marks, Copies, Pending, CursorTrue, OpenAt, Chain, Mismatches;
    EndIsMarker(crc, f, ts, ss, st, g, n);
    NextPrefix(crc, ts, ss, g);
    if Marked(ts, OpenAt(ss[..g])) {
      SkippedEnd(crc, f, ts, ss, dev, st, g, n);
    } else {
      hide ScannerAt, FilesAt, OutputAt;
      FinishScanner(crc, f, ts, ss, st, g, n);
      FinishFiles(crc, f, ts, ss, st, g, n);
      FinishOutput(crc, f, ts, ss, dev, st, g, n);
    }
  }

  /** The end of a transaction that is skipped. */
  lemma SkippedEnd(crc: Crc, f: File, ts: seq<Tag>, ss: seq<Slot>, dev: File, st: Scan, g: nat, n: nat)
    requires Tagged(crc, ts, ss) && g < |ss| && Ends(ss, g) && Marked(ts, OpenAt(ss[..g]))
    requires Inv(crc, f, ts, ss, dev, st, g, n)
    ensures Inv(crc, f, ts, ss, dev, st.(txnId := 0), g + 1, n)
  {
    hide Holds, Pos, Xor32, TagCrc, Drift, Marks, Copies, Pending, CursorTrue, OpenAt, Chain, Mismatches;
    NextPrefix(crc, ts, ss, g);
    Unfold(ts, ss, g);
    UnfoldMismatches(crc, ts, ss, g);
    assert Marks(ts, ss, g + 1) == Marks(ts, ss, g);
  }

  /** The end marker reads as one, and a transaction is open. */
  lemma EndIsMarker(crc: Crc, f: File, ts: seq<Tag>, ss: seq<Slot>, st: Scan, g: nat, n: nat)
    requires Tagged(crc, ts, ss) && g < |ss| && g < KEYS_PER_BLOCK * n && ss[g].EndSlot?
    requires FilesAt(f, ts, ss, st, g, n) && ScannerAt(crc, ts, ss, st, g)
    ensures Ends(ss, g) && g < |st.tags| && st.tags[g] == ts[g] && IsMarker(st.tags[g])
    ensures st.txnId != 0 && st.replayed == Marked(ts, OpenAt(ss[..g]))
  {
    hide Pos, Drift, Marks, Chain, Holds, OpenAt, Mismatches;
    NextPrefix(crc, ts, ss, g);
    NextPrefix(crc, ts, ss, OpenAt(ss[..g]));
  }

  /* ----- blocks and the whole log ----- */

  function Min(a: nat, b: nat): nat { if a <= b then a else b }

  lemma {:induction false} SlotsScan(crc: Crc, f: File, ts: seq<Tag>, ss: seq<Slot>, dev: File, st: Scan, lo: nat,
                                     hi: nat, n: nat)
    requires Tagged(crc, ts, ss) && lo <= hi <= KEYS_PER_BLOCK * n <= |ts| && st.Valid(lo)
    requires |st.tags| == KEYS_PER_BLOCK * n && Inv(crc, f, ts, ss, dev, st, Min(lo, |ss|), n)
    ensures Inv(crc, f, ts, ss, dev, ScanSlots(crc, st, lo, hi), Min(hi, |ss|), n)
    decreases hi
  {
    hide Inv;
    if lo == hi {
    } else {
      SlotsScan(crc, f, ts, ss, dev, st, lo, hi - 1, n);
      SlotStep(crc, f, ts, ss, dev, ScanSlots(crc, st, lo, hi - 1), hi - 1, n);
    }
  }

  /** One slot, including the zero slots after the last one written. */
  lemma SlotStep(crc: Crc, f: File, ts: seq<Tag>, ss: seq<Slot>, dev: File, st: Scan, g: nat, n: nat)
    requires Tagged(crc, ts, ss) && g < KEYS_PER_BLOCK * n <= |ts| && st.Valid(g) && g < |st.tags|
    requires Inv(crc, f, ts, ss, dev, st, Min(g, |ss|), n)
    ensures Inv(crc, f, ts, ss, dev, ScanSlot(crc, st, g), Min(g + 1, |ss|), n)
  {
    if g < |ss| {
      hide Inv, ScanSlot;
      match ss[g]
      case BeginSlot(_) => BeginStep(crc, f, ts, ss, dev, st, g, n);
      case DataSlot(_, _) => DataStep(crc, f, ts, ss, dev, st, g, n);
      case EndSlot(_, _) => EndStep(crc, f, ts, ss, dev, st, g, n);
    } else {
      hide Marks, Holds, ScannerAt, OutputAt, FinishTxn;
      assert st.tags[g] == ts[g];
    }
  }

  /** The index block on file is the expected one, and the scan finds the next block where it is. */
  lemma BlockFound(ts: seq<Tag>, us: seq<Tag>, ss: seq<Slot>, f: File, n: nat)
    requires Holds(f, ts, us, ss) && KEYS_PER_BLOCK * n < |ts| && SameSizes(ts, us, |ts|)
    ensures DecodeBlock(PRead(f, BlockPos(ts, n), REDO_LOG_BLOCK_SIZE)) == BlockOf(us, n)
    ensures NextBlockAt(f, BlockPos(ts, n)) == BlockPos(ts, n + 1)
  {
    BlockSizes(ts, us, n, KEYS_PER_BLOCK);
  }

  lemma {:induction false} BlockSizes(ts: seq<Tag>, us: seq<Tag>, n: nat, k: nat)
    requires KEYS_PER_BLOCK * (n + 1) <= |ts| && SameSizes(ts, us, |ts|) && k <= KEYS_PER_BLOCK
    ensures SizeUpTo(ts, KEYS_PER_BLOCK * n) + SizeUpTo(BlockOf(us, n), k) == SizeUpTo(ts, KEYS_PER_BLOCK * n + k)
  {
    if k == 0 {
    } else {
      BlockSizes(ts, us, n, k - 1);
    }
  }

  lemma BlockRead(f: File, ts: seq<Tag>, ss: seq<Slot>, st: Scan, g: nat, n: nat)
    requires g <= |ss| <= |ts| && KEYS_PER_BLOCK * n < |ts| && st.Valid(|st.tags|)
    requires FilesAt(f, ts, ss, st, g, n)
    ensures FilesAt(f, ts, ss, ReadBlock(st, BlockPos(ts, n)), g, n + 1) && |st.tags| == KEYS_PER_BLOCK * n
    ensures NextBlockAt(st.log, BlockPos(ts, n)) == BlockPos(ts, n + 1)
  {
    hide BlockPos, NextBlockAt, Marks, Holds, HeaderOf, PRead, DecodeBlock;
    var us := Marks(ts, ss, g);
    assert |ts| % KEYS_PER_BLOCK == 0 by { HoldsWhole(st.log, ts, us, ss); }
    BlockFound(ts, us, ss, st.log, n);
    var read := ReadBlock(st, BlockPos(ts, n));
    forall i | 0 <= i < |read.tags|
      ensures read.tags[i] == us[i]
    {
      if i >= |st.tags| {
        assert read.tags[i] == BlockOf(us, n)[i - |st.tags|];
      }
    }
  }

  lemma BlockScan(crc: Crc, f: File, ts: seq<Tag>, ss: seq<Slot>, dev: File, st: Scan, n: nat)
    requires Tagged(crc, ts, ss) && KEYS_PER_BLOCK * n < |ts| && st.Valid(|st.tags|)
    requires Inv(crc, f, ts, ss, dev, st, Min(KEYS_PER_BLOCK * n, |ss|), n)
    ensures Inv(crc, f, ts, ss, dev, ScanBlock(crc, st, BlockPos(ts, n)), Min(KEYS_PER_BLOCK * (n + 1), |ss|), n + 1)
    ensures NextBlockAt(st.log, BlockPos(ts, n)) == BlockPos(ts, n + 1)
  {
    hide ScannerAt, OutputAt, FilesAt, BlockPos, NextBlockAt, ScanSlots, Marks;
    var g := Min(KEYS_PER_BLOCK * n, |ss|);
    var read := ReadBlock(st, BlockPos(ts, n));
    BlockRead(f, ts, ss, st, g, n);
    ReadKeeps(crc, f, ts, ss, dev, st, BlockPos(ts, n), g);
    SlotsScan(crc, f, ts, ss, dev, read, KEYS_PER_BLOCK * n, KEYS_PER_BLOCK * (n + 1), n + 1);
  }

  lemma ReadKeeps(crc: Crc, f: File, ts: seq<Tag>, ss: seq<Slot>, dev: File, st: Scan, at: nat, g: nat)
    requires g <= |ss| <= |ts| && st.Valid(|st.tags|)
    ensures ScannerAt(crc, ts, ss, st, g) ==> ScannerAt(crc, ts, ss, ReadBlock(st, at), g)
    ensures OutputAt(crc, f, ts, ss, dev, st, g) ==> OutputAt(crc, f, ts, ss, dev, ReadBlock(st, at), g)
  {
  }

  lemma {:induction false} BlocksScan(crc: Crc, f: File, ts: seq<Tag>, ss: seq<Slot>, dev: File, st: Scan, n: nat,
                                      k: nat)
    requires Tagged(crc, ts, ss) && KEYS_PER_BLOCK * (n + k) <= |ts| && st.Valid(|st.tags|)
    requires Inv(crc, f, ts, ss, dev, st, Min(KEYS_PER_BLOCK * n, |ss|), n)
    ensures Inv(crc, f, ts, ss, dev, ScanBlocks(crc, st, BlockPos(ts, n), k), Min(KEYS_PER_BLOCK * (n + k), |ss|),
                n + k)
    ensures ScanPos(crc, st, BlockPos(ts, n), k) == BlockPos(ts, n + k)
    decreases k
  {
    hide Inv, BlockPos, NextBlockAt, ScanBlock;
    if k == 0 {
      assert ScanBlocks(crc, st, BlockPos(ts, n), k) == st;
    } else {
      BlockScan(crc, f, ts, ss, dev, st, n);
      BlocksScan(crc, f, ts, ss, dev, ScanBlock(crc, st, BlockPos(ts, n)), n + 1, k - 1);
    }
  }

  /** The file is a finished log with index `ts` and slots `ss`. */
  ghost predicate LogImage(crc: Crc, f: File, ts: seq<Tag>, ss: seq<Slot>) {
    && Replayable(crc, f) && HeaderOf(f).keyOffset == HEADER_SIZE
    && KEYS_PER_BLOCK * (HeaderOf(f).numKeys + 1) == |ts|
    && Tagged(crc, ts, ss) && Holds(f, ts, ts, ss)
  }

  /** Every state a replay of a log image passes through: after any slot of any index block. */
  lemma ReplayReaches(crc: Crc, f: File, ts: seq<Tag>, ss: seq<Slot>, dev: File, b: nat, j: nat)
    requires LogImage(crc, f, ts, ss) && KEYS_PER_BLOCK * b < |ts| && j <= KEYS_PER_BLOCK
    ensures Inv(crc, f, ts, ss, dev, ScanTo(crc, f, dev, b, j), Min(KEYS_PER_BLOCK * b + j, |ss|), b + 1)
  {
    hide Replayable, HeaderOf, Holds, ScanBlocks, ScanSlots, ScannerAt, OutputAt, FilesAt, BlockPos, ScanPos, ReadBlock;
    var start := StartScan(f, dev);
    StartsRight(crc, f, ts, ss, dev);
    BlocksScan(crc, f, ts, ss, dev, start, 0, b);
    ScanBlocksSnoc(crc, start, HEADER_SIZE, b);
    var st := ScanBlocks(crc, start, HEADER_SIZE, b);
    var g := Min(KEYS_PER_BLOCK * b, |ss|);
    BlockRead(f, ts, ss, st, g, b);
    ReadKeeps(crc, f, ts, ss, dev, st, BlockPos(ts, b), g);
    SlotsScan(crc, f, ts, ss, dev, ReadBlock(st, BlockPos(ts, b)), KEYS_PER_BLOCK * b, KEYS_PER_BLOCK * b + j, b + 1);
  }

  lemma StartsRight(crc: Crc, f: File, ts: seq<Tag>, ss: seq<Slot>, dev: File)
    requires LogImage(crc, f, ts, ss)
    ensures BlockPos(ts, 0) == HEADER_SIZE
    ensures Inv(crc, f, ts, ss, dev, StartScan(f, dev), 0, 0)
  {
    hide Replayable, HeaderOf, Holds;
    assert ss[..0] == [];
  }

  /** Everything the scan finds on a log image. */
  lemma ReplayInvariant(crc: Crc, f: File, ts: seq<Tag>, ss: seq<Slot>, dev: File)
    requires LogImage(crc, f, ts, ss)
    ensures Inv(crc, f, ts, ss, dev, ReplayScan(crc, f, dev), |ss|, |ts| / KEYS_PER_BLOCK)
  {
    hide Replayable, HeaderOf, Holds, ScanTo, Inv, ReplayScan;
    ReplayReaches(crc, f, ts, ss, dev, HeaderOf(f).numKeys, KEYS_PER_BLOCK);
    ScanToEnd(crc, f, dev);
  }
}
