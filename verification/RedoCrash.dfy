/** Crash atomicity: any prefix of a session's log writes, followed by a replay, applies whole transactions only. */
module RedoCrash {
  import opened Bytes
  import opened RedoFormat
  import opened RedoLayout
  import opened RedoWriter
  import opened RedoScan
  import opened RedoReplay
  import opened RedoTheorems

  /** The first `nb` index blocks of the log. */
  function Front(crc: Crc, ss: seq<Slot>, nb: nat): (ts: seq<Tag>)
    requires nb <= |ss| / KEYS_PER_BLOCK + 1
    ensures |ts| == KEYS_PER_BLOCK * nb
    ensures forall i :: 0 <= i < |ts| ==> ts[i] == if i < |ss| then TagOf(crc, ss[i]) else ZERO_TAG
  {
    Index(crc, ss)[..KEYS_PER_BLOCK * nb]
  }

  /**
   What every crash state satisfies: `nb` sealed index blocks and the data of slots `ss` are on file, and a
   replayable header covers only blocks on file. With `floor >= 0` the header is replayable and was written
   when the log had `floor` slots.
   */
  ghost predicate Good(crc: Crc, f: File, ss: seq<Slot>, nb: nat, floor: int) {
    && nb <= |ss| / KEYS_PER_BLOCK + 1 && |ss| <= KEYS_PER_BLOCK * nb
    && Holds(f, Front(crc, ss, nb), Front(crc, ss, nb), ss) && Stamped(crc, f, Front(crc, ss, nb))
    && HeaderCovers(crc, f, |ss|, nb, floor)
  }

  /** The index blocks on file are as the writer puts them out, magic number and CRC included. */
  ghost predicate Stamped(crc: Crc, f: File, ts: seq<Tag>) {
    forall b :: 0 <= b < |ts| / KEYS_PER_BLOCK ==>
                  PRead(f, BlockPos(ts, b), REDO_LOG_BLOCK_SIZE) == SealedBlock(crc, BlockOf(ts, b))
  }

  ghost predicate HeaderCovers(crc: Crc, f: File, n: nat, nb: nat, floor: int) {
    && (Replayable(crc, f) ==> HeaderOf(f).keyOffset == HEADER_SIZE && HeaderOf(f).numKeys + 1 <= nb)
    && (floor >= 0 ==> Replayable(crc, f) && floor <= n && HeaderOf(f).numKeys == floor / KEYS_PER_BLOCK)
  }

  lemma PositionsAgree(ts: seq<Tag>, us: seq<Tag>, n: nat)
    requires SameSizes(ts, us, n)
    ensures forall i :: 0 <= i <= n ==> Pos(ts, i) == Pos(us, i)
    ensures forall b :: 0 <= b && KEYS_PER_BLOCK * b <= n ==> BlockPos(ts, b) == BlockPos(us, b)
  {
    forall i | 0 <= i <= n
      ensures SizeUpTo(ts, i) == SizeUpTo(us, i)
    {
      SizesAgree(ts, us, i);
    }
  }

  /* ----- the four kinds of write ----- */

  /** The data of slot `n = |ss|` is on file where the slot will look for it. */
  ghost predicate DataReady(crc: Crc, f: File, ss: seq<Slot>, s: Slot) {
    s.DataSlot? ==> PRead(f, Pos(Index(crc, ss + [s]), |ss|), |s.data|) == s.data
  }

  /** Before the block of the newest slots is written, everything else of the longer log is on file. */
  lemma ReadyToStore(crc: Crc, f: File, ss: seq<Slot>, nb: nat, ss': seq<Slot>)
    requires nb <= |ss| / KEYS_PER_BLOCK + 1 && |ss| <= KEYS_PER_BLOCK * nb
    requires Holds(f, Front(crc, ss, nb), Front(crc, ss, nb), ss)
    requires ss' == ss || (|ss'| == |ss| + 1 && ss' == ss + [ss'[|ss|]] && DataReady(crc, f, ss, ss'[|ss|]))
    ensures var b := |ss| / KEYS_PER_BLOCK; var ts := Front(crc, ss', b + 1); HoldsBut(f, ts, ts, ss', b)
  {
    hide PRead, DecodeBlock, Pos, BlockPos, TagOf, Index;
    var b := |ss| / KEYS_PER_BLOCK;
    var was, ts := Front(crc, ss, nb), Front(crc, ss', b + 1);
    PositionsAgree(was, ts, |ss|);
    forall c | 0 <= c < b
      ensures DecodeBlock(PRead(f, BlockPos(ts, c), REDO_LOG_BLOCK_SIZE)) == BlockOf(ts, c)
    {
      assert BlockOf(was, c) == BlockOf(ts, c);
      assert BlockPos(was, c) == BlockPos(ts, c);
    }
    if ss' != ss {
      PositionsAgree(ts, Index(crc, ss'), |ss|);
    }
    forall i | 0 <= i < |ss'| && ss'[i].DataSlot?
      ensures PRead(f, Pos(ts, i), |ss'[i].data|) == ss'[i].data
    {
      if i < |ss| {
        assert Pos(was, i) == Pos(ts, i) && ss'[i] == ss[i];
      }
    }
  }

  /** Writing the block of the newest slots leaves every block sealed. */
  lemma StampBlock(crc: Crc, f: File, ss: seq<Slot>, nb: nat, ss': seq<Slot>)
    requires nb <= |ss| / KEYS_PER_BLOCK + 1 && |ss| <= KEYS_PER_BLOCK * nb
    requires Stamped(crc, f, Front(crc, ss, nb))
    requires ss' == ss || (|ss'| == |ss| + 1 && ss' == ss + [ss'[|ss|]])
    ensures var b := |ss| / KEYS_PER_BLOCK; Stamped(crc, Put(f, BlockWrite(crc, ss', b)), Front(crc, ss', b + 1))
  {
    hide PRead, PWrite, BlockPos, TagOf, Index, SealedBlock;
    var b := |ss| / KEYS_PER_BLOCK;
    var was, ts := Front(crc, ss, nb), Front(crc, ss', b + 1);
    var block := SealedBlock(crc, BlockOf(ts, b));
    SameBlock(crc, ss', b);
    PositionsAgree(was, ts, |ss|);
    ReadBack(f, BlockPos(ts, b), block);
    forall c | 0 <= c < b
      ensures PRead(PWrite(f, BlockPos(ts, b), block), BlockPos(ts, c), REDO_LOG_BLOCK_SIZE) ==
              SealedBlock(crc, BlockOf(ts, c))
    {
      assert BlockOf(was, c) == BlockOf(ts, c) && BlockPos(was, c) == BlockPos(ts, c);
      BlocksApart(ts, c, b);
      ReadElsewhere(f, BlockPos(ts, b), block, BlockPos(ts, c), REDO_LOG_BLOCK_SIZE);
    }
  }

  lemma SameBlock(crc: Crc, ss: seq<Slot>, b: nat)
    requires b <= |ss| / KEYS_PER_BLOCK
    ensures BlockPos(Front(crc, ss, b + 1), b) == BlockPos(Index(crc, ss), b)
    ensures BlockOf(Front(crc, ss, b + 1), b) == BlockOf(Index(crc, ss), b)
  {
    PositionsAgree(Front(crc, ss, b + 1), Index(crc, ss), KEYS_PER_BLOCK * b);
  }

  /** Writing the current block, with or without a new slot in it. */
  lemma StoreBlock(crc: Crc, f: File, ss: seq<Slot>, nb: nat, floor: int, ss': seq<Slot>)
    requires Good(crc, f, ss, nb, floor)
    requires ss' == ss || (|ss'| == |ss| + 1 && ss' == ss + [ss'[|ss|]] && DataReady(crc, f, ss, ss'[|ss|]))
    ensures var b := |ss| / KEYS_PER_BLOCK; Good(crc, Put(f, BlockWrite(crc, ss', b)), ss', b + 1, floor)
  {
    hide Holds, HoldsBut, BlockPos, EncodeBlock, PWrite, HeaderOf, HeaderCrc, Index, DataReady, BlockOf, Stamped;
    var b := |ss| / KEYS_PER_BLOCK;
    var ts := Front(crc, ss', b + 1);
    StampBlock(crc, f, ss, nb, ss');
    ReadyToStore(crc, f, ss, nb, ss');
    SameBlock(crc, ss', b);
    var head := BlockHead(BlockMagic(), crc(EncodeBlock(BlockHead(BlockMagic(), 0), BlockOf(ts, b))));
    BlockRewrite(f, ts, ts, ss', b, head);
  }

  /** Writing data past everything on file. */
  lemma StoreData(crc: Crc, f: File, ss: seq<Slot>, nb: nat, floor: int, s: Slot)
    requires Good(crc, f, ss, nb, floor) && s.DataSlot?
    ensures var f' := Put(f, Pwrite(Pos(Index(crc, ss), |ss|), s.data));
      Good(crc, f', ss, nb, floor) && DataReady(crc, f', ss, s)
  {
    hide PRead, PWrite, DecodeBlock, DecodeHeader, HeaderCrc, Index, SealedBlock;
    var at := Pos(Index(crc, ss), |ss|);
    var f' := PWrite(f, at, s.data);
    var ts := Front(crc, ss, nb);
    PositionsAgree(ts, Index(crc, ss), |ss|);
    PositionsAgree(Index(crc, ss + [s]), Index(crc, ss), |ss|);
    ReadBack(f, at, s.data);
    ReadElsewhere(f, at, s.data, 0, HEADER_SIZE);
    hide Pos, BlockPos, TagOf;
    forall b | 0 <= b < nb
      ensures PRead(f', BlockPos(ts, b), REDO_LOG_BLOCK_SIZE) == PRead(f, BlockPos(ts, b), REDO_LOG_BLOCK_SIZE)
    {
      BlockBeforeEnd(ts, b, |ss|);
      ReadElsewhere(f, at, s.data, BlockPos(ts, b), REDO_LOG_BLOCK_SIZE);
    }
    forall i | 0 <= i < |ss| && ss[i].DataSlot?
      ensures PRead(f', Pos(ts, i), |ss[i].data|) == ss[i].data
    {
      DataApart(ts, i, |ss|);
      SizeOfData(crc, ss[i]);
      ReadElsewhere(f, at, s.data, Pos(ts, i), |ss[i].data|);
    }
  }

  lemma SizeOfData(crc: Crc, s: Slot)
    requires s.DataSlot?
    ensures TagOf(crc, s).size == |s.data|
  {
  }

  lemma BlockBeforeEnd(ts: seq<Tag>, b: nat, n: nat)
    requires KEYS_PER_BLOCK * b <= n <= |ts|
    ensures BlockPos(ts, b) + REDO_LOG_BLOCK_SIZE <= Pos(ts, n)
  {
    SizesGrow(ts, KEYS_PER_BLOCK * b, n);
  }

  /** Writing a header that covers the blocks on file. */
  lemma StoreHeader(crc: Crc, f: File, ss: seq<Slot>, floor: int, h: Header)
    requires Good(crc, f, ss, |ss| / KEYS_PER_BLOCK + 1, floor)
    requires h.Sized() && h.keyOffset == HEADER_SIZE && h.numKeys == |ss| / KEYS_PER_BLOCK
    ensures Good(crc, Put(f, Pwrite(0, EncodeHeader(Sealed(crc, h)))), ss, |ss| / KEYS_PER_BLOCK + 1,
                 if h.state == STATE_FINISHED then |ss| else -1)
  {
    hide PRead, PWrite, DecodeBlock, EncodeHeader, HeaderOf, HeaderCrc, Index, SealedBlock;
    var bytes := EncodeHeader(Sealed(crc, h));
    var f' := PWrite(f, 0, bytes);
    var ts := Front(crc, ss, |ss| / KEYS_PER_BLOCK + 1);
    HeaderReadBack(crc, f, h);
    forall at, n: nat | at >= HEADER_SIZE
      ensures PRead(f', at, n) == PRead(f, at, n)
    {
      ReadElsewhere(f, 0, bytes, at, n);
    }
  }

  /* ----- one call ----- */

  /** After any prefix of one call's writes: `n` slots are on file, as many as the call logged if it completed. */
  lemma CallKeepsGood(crc: Crc, w: Writer, f: File, nb: nat, floor: int, op: Op, j: nat)
    returns (n: nat, nb': nat, floor': int)
    requires CanStep(w, op) && w.hdr.Sized() && w.hdr.keyOffset == HEADER_SIZE
    requires Good(crc, f, w.slots, nb, floor) && j <= |Writes(crc, w, op)|
    ensures |w.slots| <= n <= |Step(crc, w, op).slots|
    ensures Good(crc, Apply(f, Writes(crc, w, op)[..j]), Step(crc, w, op).slots[..n], nb', floor')
    ensures j == |Writes(crc, w, op)| ==> n == |Step(crc, w, op).slots| && (op == MarkDone(true) ==> floor' == n)
    ensures op != MarkDone(false) ==> floor <= floor'
  {
    hide Good, Put, BlockWrite, SealedBlock, EncodeHeader, HeaderCrc, DataReady, Apply;
    var after := Step(crc, w, op).slots;
    n, nb', floor' := |w.slots|, nb, floor;
    assert after[..n] == w.slots && after[..|after|] == after;
    if j == 0 {
      assert Writes(crc, w, op)[..0] == [];
      NothingWritten(f);
    } else {
      match op
      case Begin =>
        nb' := BeginStored(crc, w, f, nb, floor);
        n := |after|;
        assert Writes(crc, w, op)[..j] == Writes(crc, w, op);
      case Write(_, _) => n, nb' := WriteStored(crc, w, f, nb, floor, op, j);
      case End =>
        nb' := EndStored(crc, w, f, nb, floor, j);
        n := |after|;
      case MarkDone(done) => nb', floor' := MarkDoneStored(crc, w, f, nb, floor, done, j);
    }
  }

  lemma NothingWritten(f: File)
    ensures Apply(f, []) == f
  {
  }

  lemma BeginStored(crc: Crc, w: Writer, f: File, nb: nat, floor: int) returns (nb': nat)
    requires w.hdr.Sized() && Good(crc, f, w.slots, nb, floor)
    ensures Good(crc, Apply(f, Writes(crc, w, Begin)), Step(crc, w, Begin).slots, nb', floor)
  {
    hide Good, Put, BlockWrite, DataReady, Apply;
    var s := BeginSlot(w.txnId);
    NoDataNeeded(crc, f, w.slots, s);
    nb' := SlotStored(crc, w, f, nb, floor, Begin, s);
    var a := LastSlotWrite(crc, w.slots + [s]);
    ApplyFew(f, a, a, a, a);
  }

  lemma WriteStored(crc: Crc, w: Writer, f: File, nb: nat, floor: int, op: Op, j: nat) returns (n: nat, nb': nat)
    requires op.Write? && w.hdr.Sized() && Good(crc, f, w.slots, nb, floor) && 0 < j <= 2
    ensures |w.slots| <= n <= |Step(crc, w, op).slots| && (j == 2 ==> n == |Step(crc, w, op).slots|)
    ensures Good(crc, Apply(f, Writes(crc, w, op)[..j]), Step(crc, w, op).slots[..n], nb', floor)
  {
    hide Good, Put, BlockWrite, DataReady, Apply;
    var s := DataSlot(op.offset, op.data);
    var after := Step(crc, w, op).slots;
    var a, b := Pwrite(Pos(Index(crc, w.slots), |w.slots|), op.data), LastSlotWrite(crc, after);
    assert Writes(crc, w, op) == [a, b];
    ApplyFew(f, a, b, b, b);
    StoreData(crc, f, w.slots, nb, floor, s);
    if j == 1 {
      n, nb' := |w.slots|, nb;
      assert [a, b][..1] == [a] && after[..n] == w.slots;
    } else {
      n := |after|;
      nb' := SlotStored(crc, w, Put(f, a), nb, floor, op, s);
      assert [a, b][..2] == [a, b] && after[..n] == after;
    }
  }

  lemma EndStored(crc: Crc, w: Writer, f: File, nb: nat, floor: int, j: nat) returns (nb': nat)
    requires CanStep(w, End) && w.hdr.Sized() && Good(crc, f, w.slots, nb, floor) && 0 < j <= 2
    ensures Good(crc, Apply(f, Writes(crc, w, End)[..j]), Step(crc, w, End).slots, nb', floor)
  {
    hide Good, Put, BlockWrite, DataReady, Apply;
    var after := Step(crc, w, End).slots;
    var s := after[|w.slots|];
    var a, b := LastSlotWrite(crc, after), CurrentWrite(crc, after);
    assert Writes(crc, w, End) == [a, b];
    ApplyFew(f, a, b, b, b);
    NoDataNeeded(crc, f, w.slots, s);
    nb' := SlotStored(crc, w, f, nb, floor, End, s);
    if j == 1 {
      assert [a, b][..1] == [a];
    } else {
      assert [a, b][..2] == [a, b];
      StoreBlock(crc, Put(f, a), after, nb', floor, after);
      nb' := |after| / KEYS_PER_BLOCK + 1;
    }
  }

  lemma NoDataNeeded(crc: Crc, f: File, ss: seq<Slot>, s: Slot)
    requires !s.DataSlot?
    ensures DataReady(crc, f, ss, s)
  {
  }

  lemma SlotStored(crc: Crc, w: Writer, f: File, nb: nat, floor: int, op: Op, s: Slot) returns (nb': nat)
    requires CanStep(w, op) && Good(crc, f, w.slots, nb, floor)
    requires Step(crc, w, op).slots == w.slots + [s] && DataReady(crc, f, w.slots, s)
    ensures Good(crc, Put(f, LastSlotWrite(crc, w.slots + [s])), w.slots + [s], nb', floor)
  {
    hide Good, Put, BlockWrite, DataReady;
    StoreBlock(crc, f, w.slots, nb, floor, w.slots + [s]);
    nb' := |w.slots| / KEYS_PER_BLOCK + 1;
  }

  lemma MarkDoneStored(crc: Crc, w: Writer, f: File, nb: nat, floor: int, done: bool, j: nat)
    returns (nb': nat, floor': int)
    requires CanStep(w, MarkDone(done)) && w.hdr.Sized() && w.hdr.keyOffset == HEADER_SIZE
    requires Good(crc, f, w.slots, nb, floor) && 0 < j <= 4
    ensures Good(crc, Apply(f, Writes(crc, w, MarkDone(done))[..j]), w.slots, nb', floor')
    ensures j == 4 && done ==> floor' == |w.slots|
    ensures done ==> floor <= floor'
  {
    hide Good, BlockWrite, SealedBlock, EncodeHeader, HeaderCrc, Put;
    GoodFloor(crc, f, w.slots, nb, floor);
    var ws := Writes(crc, w, MarkDone(done));
    var a, h := ws[0], ws[2];
    var hdr := w.hdr.(numKeys := |w.slots| / KEYS_PER_BLOCK, state := if done then 1 else 0);
    nb', floor' := |w.slots| / KEYS_PER_BLOCK + 1, floor;
    assert ws == [a, a, h, a];
    ApplyFew(f, a, a, h, a);
    StoreBlock(crc, f, w.slots, nb, floor, w.slots);
    StoreBlock(crc, Put(f, a), w.slots, nb', floor, w.slots);
    StoreHeader(crc, Put(Put(f, a), a), w.slots, floor, hdr);
    if j == 1 {
      assert ws[..1] == [a];
    } else if j == 2 {
      assert ws[..2] == [a, a];
    } else {
      floor' := if done then |w.slots| else -1;
      assert ws[..3][..2] == [a, a] && ws[..3][2] == h;
      assert Apply(f, ws[..3]) == Put(Apply(f, [a, a]), h);
      if j == 4 {
        assert ws[..4] == ws;
        StoreBlock(crc, Put(Put(Put(f, a), a), h), w.slots, nb', floor', w.slots);
      }
    }
  }

  /* ----- whole sessions ----- */

  /** No call marks the log unfinished again. */
  predicate StaysDone(ops: seq<Op>) { MarkDone(false) !in ops }

  lemma {:induction false} HeaderKeepsOffset(crc: Crc, w: Writer, ops: seq<Op>)
    requires Runnable(crc, w, ops) && w.hdr.Sized()
    ensures Run(crc, w, ops).hdr.keyOffset == w.hdr.keyOffset && Run(crc, w, ops).hdr.Sized()
    ensures w.slots <= Run(crc, w, ops).slots
  {
    if ops == [] {
    } else {
      HeaderKeepsOffset(crc, w, ops[..|ops| - 1]);
    }
  }

  /** After any prefix of a session's writes. */
  lemma {:induction false} SessionKeepsGood(crc: Crc, w: Writer, f: File, nb: nat, floor: int, ops: seq<Op>, j: nat)
    returns (n: nat, nb': nat, floor': int)
    requires Runnable(crc, w, ops) && w.hdr.Sized() && w.hdr.keyOffset == HEADER_SIZE
    requires Good(crc, f, w.slots, nb, floor) && j <= |Trace(crc, w, ops)|
    ensures |w.slots| <= n <= |Run(crc, w, ops).slots|
    ensures Good(crc, Apply(f, Trace(crc, w, ops)[..j]), Run(crc, w, ops).slots[..n], nb', floor')
    ensures j == |Trace(crc, w, ops)| ==> n == |Run(crc, w, ops).slots|
    ensures j == |Trace(crc, w, ops)| && ops != [] && ops[|ops| - 1] == MarkDone(true) ==> floor' == n
    ensures StaysDone(ops) ==> floor <= floor'
    decreases |ops|
  {
    hide Good, Writes, Step, Put;
    var all := Trace(crc, w, ops);
    if ops == [] {
      n, nb', floor' := |w.slots|, nb, floor;
      assert all[..j] == [] && w.slots[..n] == w.slots;
    } else {
      var pre := ops[..|ops| - 1];
      var mid := Run(crc, w, pre);
      HeaderKeepsOffset(crc, w, pre);
      HeaderKeepsOffset(crc, w, ops);
      StepExtends(crc, mid, ops[|ops| - 1]);
      var head := Trace(crc, w, pre);
      var tail := Writes(crc, mid, ops[|ops| - 1]);
      if j < |head| {
        assert all[..j] == head[..j];
        n, nb', floor' := SessionKeepsGood(crc, w, f, nb, floor, pre, j);
        assert mid.slots[..n] == Run(crc, w, ops).slots[..n];
      } else {
        assert head[..|head|] == head && mid.slots[..|mid.slots|] == mid.slots;
        n, nb', floor' := SessionKeepsGood(crc, w, f, nb, floor, pre, |head|);
        var f' := Apply(f, head);
        n, nb', floor' := CallKeepsGood(crc, mid, f', nb', floor', ops[|ops| - 1], j - |head|);
        assert all[..j] == head + tail[..j - |head|];
        ApplyConcat(f, head, tail[..j - |head|]);
      }
    }
  }

  lemma StepExtends(crc: Crc, w: Writer, op: Op)
    requires CanStep(w, op)
    ensures w.slots <= Step(crc, w, op).slots
  {
  }

  /* ----- the theorems ----- */

  /** The part of a held log below slot `v`, with its first `k` blocks. */
  lemma HoldsPrefix(f: File, ts: seq<Tag>, ss: seq<Slot>, k: nat, v: nat)
    requires Holds(f, ts, ts, ss) && KEYS_PER_BLOCK * k <= |ts| && v <= |ss| && v <= KEYS_PER_BLOCK * k
    ensures Holds(f, ts[..KEYS_PER_BLOCK * k], ts[..KEYS_PER_BLOCK * k], ss[..v])
  {
    hide PRead, DecodeBlock, Pos, BlockPos;
    var us := ts[..KEYS_PER_BLOCK * k];
    PositionsAgree(ts, us, |us|);
    forall b | 0 <= b < k
      ensures DecodeBlock(PRead(f, BlockPos(us, b), REDO_LOG_BLOCK_SIZE)) == BlockOf(us, b)
    {
      assert BlockOf(us, b) == BlockOf(ts, b) && BlockPos(us, b) == BlockPos(ts, b);
    }
    forall i | 0 <= i < v && ss[i].DataSlot?
      ensures PRead(f, Pos(us, i), |ss[i].data|) == ss[i].data
    {
      assert Pos(us, i) == Pos(ts, i);
    }
  }

  lemma AlignedPrefix(ss: seq<Slot>, v: nat)
    requires Aligned(ss) && v <= |ss|
    ensures Aligned(ss[..v])
  {
    hide OpenAt;
    forall e | 0 <= e < v
      ensures Ends(ss[..v], e) == Ends(ss, e) && Derails(ss[..v], e) == Derails(ss, e) && ss[..v][..e] == ss[..e]
    {
      assert ss[..v][..e] == ss[..e];
    }
    hide Ends, Derails;
  }

  /** The log a replayable crash state shows: the slots in the blocks its header covers. */
  lemma CrashImage(crc: Crc, f: File, ss: seq<Slot>, nb: nat, floor: int) returns (ts: seq<Tag>, v: nat)
    requires Good(crc, f, ss, nb, floor) && Replayable(crc, f) && WellBracketed(ss)
    ensures v <= |ss| && floor <= v
    ensures LogImage(crc, f, ts, ss[..v]) && Unmarked(ts, ss[..v])
  {
    hide Holds, Replayable, HeaderOf, WellBracketed;
    var k := HeaderOf(f).numKeys + 1;
    v := if |ss| <= KEYS_PER_BLOCK * k then |ss| else KEYS_PER_BLOCK * k;
    ts := Front(crc, ss, nb)[..KEYS_PER_BLOCK * k];
    HoldsPrefix(f, Front(crc, ss, nb), ss, k, v);
    PrefixesBracketed(crc, ss, v);
  }

  /** Replaying a crash state applies an initial run of the committed transactions. */
  lemma RecoverGood(crc: Crc, f: File, all: seq<Slot>, n: nat, nb: nat, floor: int, dev: File) returns (m: nat)
    requires n <= |all| && Good(crc, f, all[..n], nb, floor) && WellBracketed(all) && Aligned(all)
    ensures m <= |Committed(all)| && Recover(crc, f, dev) == ApplyTxns(dev, Committed(all)[..m])
    ensures 0 <= floor ==> floor <= n && |Committed(all[..floor])| <= m
  {
    hide Good, Aligned, WellBracketed, Replayable, ReplayScan, LogImage, Unmarked, Committed;
    PrefixesBracketed(crc, all, n);
    GoodFloor(crc, f, all[..n], nb, floor);
    if !Replayable(crc, f) {
      m := 0;
      assert Committed(all)[..0] == [];
    } else {
      var ts, v := CrashImage(crc, f, all[..n], nb, floor);
      assert all[..n][..v] == all[..v];
      AlignedPrefix(all, v);
      ReplayRefinesFold(crc, f, ts, all[..v], dev);
      CommittedGrows(all, v);
      m := |Committed(all[..v])|;
      assert Committed(all)[..m] == Committed(all[..v]);
      if floor >= 0 {
        assert all[..v][..floor] == all[..floor];
        CommittedGrows(all[..v], floor);
      }
    }
  }

  lemma GoodFloor(crc: Crc, f: File, ss: seq<Slot>, nb: nat, floor: int)
    requires Good(crc, f, ss, nb, floor)
    ensures floor >= 0 ==> Replayable(crc, f) && floor <= |ss|
  {
  }

  /** A log just opened: nothing logged, an unfinished header, and any leftovers of earlier sessions behind it. */
  ghost predicate Opened(crc: Crc, w: Writer, f: File) {
    && w.slots == [] && 0 < w.txnId <= MAX_TXN_ID
    && w.hdr.Sized() && w.hdr.keyOffset == HEADER_SIZE && !Replayable(crc, f)
  }

  lemma OpenedIsGood(crc: Crc, w: Writer, f: File)
    requires Opened(crc, w, f)
    ensures Good(crc, f, w.slots, 0, -1)
  {
  }

  /**
   Crash atomicity. Whatever prefix of a session's log writes reached the file, a later replay leaves the
   device with exactly an initial run of the committed transactions applied whole (possibly none of them).
   */
  lemma CrashAtomicity(crc: Crc, w: Writer, f: File, ops: seq<Op>, j: nat, dev: File) returns (m: nat)
    requires Opened(crc, w, f) && Runnable(crc, w, ops) && Bracketed(ops)
    requires Aligned(Run(crc, w, ops).slots) && j <= |Trace(crc, w, ops)|
    ensures var txns := Committed(Run(crc, w, ops).slots);
      m <= |txns| && Recover(crc, Apply(f, Trace(crc, w, ops)[..j]), dev) == ApplyTxns(dev, txns[..m])
  {
    hide Good, Trace, Runnable, Bracketed, Aligned, Recover, Apply;
    OpenedIsGood(crc, w, f);
    SessionSlots(crc, w, ops);
    var n, nb, floor := SessionKeepsGood(crc, w, f, 0, -1, ops, j);
    m := RecoverGood(crc, Apply(f, Trace(crc, w, ops)[..j]), Run(crc, w, ops).slots, n, nb, floor, dev);
  }

  lemma CleanCutPrefix(ss: seq<Slot>, v: nat, c: nat)
    requires CleanCut(ss, c) && v <= |ss|
    ensures CleanCut(ss[..v], Min(c, v))
  {
    hide OpenAt;
    forall e | 0 <= e < v
      ensures Ends(ss[..v], e) == Ends(ss, e) && ss[..v][..e] == ss[..e]
    {
      assert ss[..v][..e] == ss[..e];
    }
    hide Ends;
  }

  /**
   A crash of the session followed by a crash of the recovery. The recovery of a crash state is stopped after slot `i`
   of index block `b`, and what it leaves, log and device, is recovered again: the device ends up as without the second
   crash, with an initial run of the committed transactions applied whole.
   */
  lemma RecoveryRecovers(crc: Crc, w: Writer, f: File, ops: seq<Op>, j: nat, dev: File, b: nat, i: nat) returns (m: nat)
    requires Opened(crc, w, f) && Runnable(crc, w, ops) && Bracketed(ops)
    requires Aligned(Run(crc, w, ops).slots) && j <= |Trace(crc, w, ops)|
    requires var f1 := Apply(f, Trace(crc, w, ops)[..j]); Replayable(crc, f1) && b <= HeaderOf(f1).numKeys
    requires i <= KEYS_PER_BLOCK && CleanCut(Run(crc, w, ops).slots, KEYS_PER_BLOCK * b + i)
    ensures var txns, f1 := Committed(Run(crc, w, ops).slots), Apply(f, Trace(crc, w, ops)[..j]);
      var st := ScanTo(crc, f1, dev, b, i);
      && m <= |txns| && Recover(crc, st.log, st.dev) == Recover(crc, f1, dev) == ApplyTxns(dev, txns[..m])
  {
    hide Good, Trace, Runnable, Bracketed, Aligned, Replayable, HeaderOf, ReplayScan, Apply, CleanCut, ScanTo,
         WellBracketed, Committed, Run, Mismatches;
    OpenedIsGood(crc, w, f);
    SessionSlots(crc, w, ops);
    var all, f1 := Run(crc, w, ops).slots, Apply(f, Trace(crc, w, ops)[..j]);
    var n, nb, floor := SessionKeepsGood(crc, w, f, 0, -1, ops, j);
    m := RecoverGood(crc, f1, all, n, nb, floor, dev);
    RecoverResumes(crc, f1, all, n, nb, floor, dev, b, i);
  }

  lemma RecoverResumes(crc: Crc, f: File, all: seq<Slot>, n: nat, nb: nat, floor: int, dev: File, b: nat, i: nat)
    requires n <= |all| && Good(crc, f, all[..n], nb, floor) && WellBracketed(all) && Aligned(all)
    requires Replayable(crc, f) && b <= HeaderOf(f).numKeys && i <= KEYS_PER_BLOCK
    requires CleanCut(all, KEYS_PER_BLOCK * b + i)
    ensures var st := ScanTo(crc, f, dev, b, i); Recover(crc, st.log, st.dev) == Recover(crc, f, dev)
  {
    hide Good, Aligned, WellBracketed, Replayable, ReplayScan, Unmarked, Committed, CleanCut, ScanTo, HeaderOf, Holds,
         Tagged, Resumable, Marks;
    PrefixesBracketed(crc, all, n);
    var ts, v := CrashImage(crc, f, all[..n], nb, floor);
    var ss, c := all[..v], KEYS_PER_BLOCK * b + i;
    assert all[..n][..v] == ss;
    AlignedPrefix(all, v);
    CleanCutPrefix(all, v, c);
    ImageTagged(crc, f, ts, ss);
    CleanCutExact(crc, ts, ss, Min(c, |ss|));
    ReplayResumes(crc, f, ts, ss, dev, b, i);
    InterruptedReplay(crc, f, ts, ss, dev, b, i);
  }

  /**
   Durability. Once `redo_mark_done(1)` has returned, every transaction committed before it survives any crash
   during later logging, further `redo_mark_done(1)` included, until the log is marked unfinished.
   */
  lemma MarkedDoneIsDurable(crc: Crc, w: Writer, f: File, ops: seq<Op>, more: seq<Op>, j: nat, dev: File)
    returns (m: nat)
    requires Opened(crc, w, f) && Runnable(crc, w, ops) && ops != [] && ops[|ops| - 1] == MarkDone(true)
    requires var mid := Run(crc, w, ops); Runnable(crc, mid, more) && StaysDone(more)
    requires var mid := Run(crc, w, ops); mid.hdr.Sized() && j <= |Trace(crc, mid, more)|
    requires var all := Run(crc, Run(crc, w, ops), more).slots; WellBracketed(all) && Aligned(all)
    ensures var mid := Run(crc, w, ops);
      var txns := Committed(Run(crc, mid, more).slots);
      && |Committed(mid.slots)| <= m <= |txns| && Committed(mid.slots) <= txns
      && Recover(crc, Apply(Apply(f, Trace(crc, w, ops)), Trace(crc, mid, more)[..j]), dev) == ApplyTxns(dev, txns[..m])
  {
    hide Good, Trace, Runnable, Run, Aligned, Recover, Apply, ApplyTxns, WellBracketed, Committed;
    OpenedIsGood(crc, w, f);
    var mid := Run(crc, w, ops);
    var writes := Trace(crc, w, ops);
    var n, nb, floor := SessionKeepsGood(crc, w, f, 0, -1, ops, |writes|);
    assert writes[..|writes|] == writes && mid.slots[..n] == mid.slots;
    HeaderKeepsOffset(crc, w, ops);
    HeaderKeepsOffset(crc, mid, more);
    var f1 := Apply(f, writes);
    var all := Run(crc, mid, more).slots;
    var n1, nb1, floor1 := SessionKeepsGood(crc, mid, f1, nb, floor, more, j);
    m := RecoverGood(crc, Apply(f1, Trace(crc, mid, more)[..j]), all, n1, nb1, floor1, dev);
    StillCommitted(all, mid.slots, floor1);
  }

  lemma StillCommitted(all: seq<Slot>, slots: seq<Slot>, n: nat)
    requires slots <= all && |slots| <= n <= |all|
    ensures Committed(slots) <= Committed(all) && |Committed(slots)| <= |Committed(all[..n])|
  {
    hide Committed;
    assert all[..|slots|] == slots && all[..n][..|slots|] == slots;
    CommittedGrows(all, |slots|);
    CommittedGrows(all[..n], |slots|);
  }
}
