/** Whole sessions of logging calls: exactly which ones replay can follow, and what it does with the others. */
module RedoSessions {
  import opened Bytes
  import opened RedoFormat
  import opened RedoLayout
  import opened RedoWriter
  import opened RedoScan
  import opened RedoReplay
  import opened RedoTheorems
  import opened RedoCrash
  import opened RedoStep
  import opened RedoLimits

  /* ----- which sessions replay can follow ----- */

  /** Begins and ends alternate; writes may be anywhere, and empty. */
  predicate Nested(ops: seq<Op>) {
    ops == [] ||
    var pre := ops[..|ops| - 1];
    && Nested(pre)
    && match ops[|ops| - 1]
       case Begin => !InTxn(pre)
       case Write(_, _) => true
       case End => InTxn(pre)
       case MarkDone(_) => true
  }

  predicate NoEmptyWrite(ops: seq<Op>) { forall op :: op in ops && op.Write? ==> op.data != [] }

  lemma {:induction false} BracketedExactly(ops: seq<Op>)
    ensures Bracketed(ops) <==> Nested(ops) && NoEmptyWrite(ops)
  {
    if ops == [] {
      assert NoEmptyWrite(ops);
    } else {
      BracketedExactly(ops[..|ops| - 1]);
      assert ops == ops[..|ops| - 1] + [ops[|ops| - 1]];
    }
  }

  /** How many transactions have been ended: by so much the counter is higher. */
  function EndCount(ops: seq<Op>): nat {
    if ops == [] then 0 else EndCount(ops[..|ops| - 1]) + if ops[|ops| - 1].End? then 1 else 0
  }

  /** What a caller can check of any session: a call that logs a marker has an id exactly if it opens or ends one. */
  predicate Followable(crc: Crc, first: u32, ops: seq<Op>) {
    ops == [] ||
    var pre := ops[..|ops| - 1];
    && Followable(crc, first, pre)
    && match ops[|ops| - 1]
       case Begin => first + EndCount(pre) > 0 <==> !InTxn(pre)
       case Write(_, data) => data != [] || crc([]) == 0
       case End => first + EndCount(pre) > 0 <==> InTxn(pre)
       case MarkDone(_) => true
  }

  /** With a positive counter, as the checksum of no bytes is positive, these are the bracket rules. */
  lemma {:induction false} FollowableIsBracketed(crc: Crc, first: u32, ops: seq<Op>)
    requires first > 0 && crc([]) > 0
    ensures Followable(crc, first, ops) <==> Bracketed(ops)
  {
    if ops == [] {
      assert Bracketed(ops);
    } else {
      FollowableIsBracketed(crc, first, ops[..|ops| - 1]);
    }
  }

  /** With the counter at 0 no session can be followed that begins a transaction before it has ended one. */
  lemma {:induction false} ZeroIsNotFollowable(crc: Crc, ops: seq<Op>)
    requires Nested(ops) && Begin in ops
    ensures !Followable(crc, 0, ops)
  {
    var pre := ops[..|ops| - 1];
    assert ops == pre + [ops[|ops| - 1]];
    if Begin in pre {
      ZeroIsNotFollowable(crc, pre);
    } else {
      NothingBegun(pre);
    }
  }

  lemma {:induction false} NothingBegun(ops: seq<Op>)
    requires Nested(ops) && Begin !in ops
    ensures EndCount(ops) == 0 && !InTxn(ops)
  {
    if ops == [] {
      assert EndCount(ops) == 0;
    } else {
      NothingBegun(ops[..|ops| - 1]);
    }
  }

  /** In any session the log is inside a transaction where the calls are, and the counter counts the ends. */
  lemma {:induction false} SessionOpens(crc: Crc, w: Writer, ops: seq<Op>)
    requires w.slots == [] && Runnable(crc, w, ops)
    ensures OpenAt(Run(crc, w, ops).slots) >= 0 <==> InTxn(ops)
    ensures Run(crc, w, ops).txnId == w.txnId + EndCount(ops)
  {
    hide Xor32, TagCrc, TagOf, HeaderCrc, OpenAt;
    if ops == [] {
      NoneOpen();
    } else {
      var pre, op := ops[..|ops| - 1], ops[|ops| - 1];
      SessionOpens(crc, w, pre);
      var was, now := Run(crc, w, pre).slots, Run(crc, w, ops).slots;
      if !op.MarkDone? {
        SnocSlot(crc, was, now[|was|]);
        assert now == was + [now[|was|]];
      }
    }
  }

  lemma NoneOpen()
    ensures OpenAt([]) < 0
  {
  }

  lemma SnocReadable(crc: Crc, ss: seq<Slot>, s: Slot)
    ensures AllReadable(crc, ss + [s], |ss + [s]|) <==> AllReadable(crc, ss, |ss|) && Readable(crc, OpenAt(ss) >= 0, s)
  {
    hide Readable, OpenAt;
    var all := ss + [s];
    assert all[|ss|] == s && all[..|ss|] == ss;
    assert forall i :: 0 <= i < |ss| ==> all[i] == ss[i] && all[..i] == ss[..i];
  }

  lemma {:induction false} ReadableExactly(crc: Crc, w: Writer, ops: seq<Op>)
    requires w.slots == [] && Runnable(crc, w, ops)
    ensures var ss := Run(crc, w, ops).slots; AllReadable(crc, ss, |ss|) <==> Followable(crc, w.txnId, ops)
  {
    hide Xor32, TagCrc, TagOf, HeaderCrc, AllReadable, OpenAt;
    if ops == [] {
      NothingToRead(crc);
    } else {
      var pre, op := ops[..|ops| - 1], ops[|ops| - 1];
      ReadableExactly(crc, w, pre);
      SessionOpens(crc, w, pre);
      var was, now := Run(crc, w, pre), Run(crc, w, ops).slots;
      if !op.MarkDone? {
        SnocReadable(crc, was.slots, now[|was.slots|]);
        assert now == was.slots + [now[|was.slots|]];
      }
    }
  }

  lemma NothingToRead(crc: Crc)
    ensures AllReadable(crc, [], 0)
  {
  }

  /** A file just made or emptied for a session whose counter may be anything. */
  ghost predicate Started(crc: Crc, w: Writer, f: File) {
    w.slots == [] && w.hdr.Sized() && w.hdr.keyOffset == HEADER_SIZE && !Replayable(crc, f)
  }

  ghost predicate Finished(crc: Crc, w: Writer, ops: seq<Op>) {
    Runnable(crc, w, ops) && ops != [] && ops[|ops| - 1] == MarkDone(true)
  }

  /** The file a finished session leaves. */
  lemma FinishedImage(crc: Crc, w: Writer, f: File, ops: seq<Op>) returns (nb: nat)
    requires Started(crc, w, f) && Finished(crc, w, ops)
    ensures var ss, f1 := Run(crc, w, ops).slots, Apply(f, Trace(crc, w, ops));
      LooseImage(crc, f1, ss, nb) && Replayable(crc, f1) && nb == |ss| / KEYS_PER_BLOCK + 1
  {
    hide Apply, Trace, Runnable, Replayable, Good, Holds, HeaderOf, Run;
    var ws, ss := Trace(crc, w, ops), Run(crc, w, ops).slots;
    NothingIsGood(crc, f);
    var n, k, floor := SessionKeepsGood(crc, w, f, 0, -1, ops, |ws|);
    assert ws[..|ws|] == ws && ss[..n] == ss;
    GoodIsLoose(crc, Apply(f, ws), ss, k);
    nb := k;
  }

  lemma NothingIsGood(crc: Crc, f: File)
    requires !Replayable(crc, f)
    ensures Good(crc, f, [], 0, -1)
  {
  }

  lemma GoodIsLoose(crc: Crc, f: File, ss: seq<Slot>, nb: nat)
    requires Good(crc, f, ss, nb, |ss|)
    ensures LooseImage(crc, f, ss, nb) && Replayable(crc, f) && nb == |ss| / KEYS_PER_BLOCK + 1
  {
    hide Holds, HeaderOf, HeaderCrc;
  }

  /**
   Exactly which sessions replay can follow. After any session that ends with `redo_mark_done(1)`, the scanner is inside
   a transaction after every slot where the log is, and outside where the log is, if and only if the session is
   followable: with a positive counter if and only if it keeps the bracket rules, as the checksum of no bytes is
   positive.
   */
  lemma SessionInStep(crc: Crc, w: Writer, f: File, ops: seq<Op>, dev: File)
    requires Started(crc, w, f) && Finished(crc, w, ops)
    ensures var ss, f1 := Run(crc, w, ops).slots, Apply(f, Trace(crc, w, ops));
      (forall b, j :: 0 <= b && 0 <= j <= KEYS_PER_BLOCK && KEYS_PER_BLOCK * b + j <= |ss| ==>
         (ScanTo(crc, f1, dev, b, j).txnId == 0 <==> OpenAt(ss[..KEYS_PER_BLOCK * b + j]) < 0)) <==>
      Followable(crc, w.txnId, ops)
    ensures w.txnId > 0 && crc([]) > 0 ==> (Followable(crc, w.txnId, ops) <==> Bracketed(ops))
  {
    hide Apply, Trace, Runnable, Run, LooseImage, ScanTo, OpenAt, Replayable, Followable, AllReadable, Bracketed;
    var nb := FinishedImage(crc, w, f, ops);
    ReadableExactly(crc, w, ops);
    InStepExactly(crc, Apply(f, Trace(crc, w, ops)), Run(crc, w, ops).slots, nb, dev);
    if w.txnId > 0 && crc([]) > 0 {
      FollowableIsBracketed(crc, w.txnId, ops);
    }
  }

  /* ----- running transactions ----- */

  predicate AllWrites(ws: seq<Op>) { forall i :: 0 <= i < |ws| ==> ws[i].Write? }

  function Logged(ws: seq<Op>): (ss: seq<Slot>)
    requires AllWrites(ws)
    ensures |ss| == |ws| && forall i :: 0 <= i < |ws| ==> ss[i] == DataSlot(ws[i].offset, ws[i].data)
  {
    seq(|ws|, i requires 0 <= i < |ws| => DataSlot(ws[i].offset, ws[i].data))
  }

  /** The calls of one transaction. */
  function Txn(ws: seq<Op>): seq<Op> { [Begin] + ws + [End] }

  lemma {:induction false} RunStep(crc: Crc, w: Writer, ops: seq<Op>, op: Op)
    requires Runnable(crc, w, ops) && CanStep(Run(crc, w, ops), op)
    ensures Runnable(crc, w, ops + [op]) && Run(crc, w, ops + [op]) == Step(crc, Run(crc, w, ops), op)
  {
    hide Step;
    assert (ops + [op])[..|ops + [op]| - 1] == ops;
  }

  lemma {:induction false} RunNothing(crc: Crc, w: Writer)
    ensures Runnable(crc, w, []) && Run(crc, w, []) == w
  {
  }

  lemma {:induction false} RunWrites(crc: Crc, w: Writer, ops: seq<Op>, ws: seq<Op>)
    requires Runnable(crc, w, ops) && AllWrites(ws)
    ensures Runnable(crc, w, ops + ws)
    ensures var r, was := Run(crc, w, ops + ws), Run(crc, w, ops);
      r.slots == was.slots + Logged(ws) && r.txnId == was.txnId && r.hdr == was.hdr
  {
    hide Xor32, TagCrc, TagOf, Runnable, Run;
    if ws == [] {
      assert ops + ws == ops && Logged(ws) == [];
    } else {
      var pre, op := ws[..|ws| - 1], ws[|ws| - 1];
      RunWrites(crc, w, ops, pre);
      RunStep(crc, w, ops + pre, op);
      assert ops + pre + [op] == ops + ws;
      assert Logged(ws) == Logged(pre) + [DataSlot(op.offset, op.data)];
    }
  }

  /** What one transaction adds to a session. */
  lemma RunTxn(crc: Crc, w: Writer, ops: seq<Op>, ws: seq<Op>) returns (csum: u32)
    requires Runnable(crc, w, ops) && AllWrites(ws) && Run(crc, w, ops).txnId < MAX_TXN_ID
    ensures Runnable(crc, w, ops + Txn(ws))
    ensures var r, was := Run(crc, w, ops + Txn(ws)), Run(crc, w, ops);
      && r.slots == was.slots + [BeginSlot(was.txnId)] + Logged(ws) + [EndSlot(was.txnId, csum)]
      && r.txnId == was.txnId + 1 && r.hdr == was.hdr
  {
    hide Xor32, TagCrc, Runnable, Run;
    RunStep(crc, w, ops, Begin);
    RunWrites(crc, w, ops + [Begin], ws);
    RunStep(crc, w, ops + [Begin] + ws, End);
    csum := Run(crc, w, ops + [Begin] + ws + [End]).slots[|Run(crc, w, ops + [Begin] + ws).slots|].csum;
    assert ops + Txn(ws) == ops + [Begin] + ws + [End];
  }

  lemma RunDone(crc: Crc, w: Writer, ops: seq<Op>)
    requires Runnable(crc, w, ops) && Run(crc, w, ops).hdr.Sized() && |Run(crc, w, ops).slots| < 2 * KEYS_PER_BLOCK
    ensures Finished(crc, w, ops + [MarkDone(true)])
    ensures Run(crc, w, ops + [MarkDone(true)]).slots == Run(crc, w, ops).slots
  {
    hide HeaderCrc, Runnable, Run;
    RunStep(crc, w, ops, MarkDone(true));
  }

  /** A session of one transaction. */
  lemma OneTxn(crc: Crc, w: Writer, ws: seq<Op>) returns (csum: u32)
    requires w.slots == [] && w.hdr.Sized() && w.txnId < MAX_TXN_ID && AllWrites(ws) && |ws| < KEYS_PER_BLOCK - 2
    ensures var ops := Txn(ws) + [MarkDone(true)];
      && Finished(crc, w, ops)
      && Run(crc, w, ops).slots == [BeginSlot(w.txnId)] + Logged(ws) + [EndSlot(w.txnId, csum)]
  {
    hide Runnable, Run, Finished, Txn;
    RunNothing(crc, w);
    csum := RunTxn(crc, w, [], ws);
    assert [] + Txn(ws) == Txn(ws);
    RunDone(crc, w, Txn(ws));
  }

  /** A session of two transactions of one write each. */
  lemma TwoTxns(crc: Crc, w: Writer, a: Op, b: Op) returns (x: u32, y: u32)
    requires w.slots == [] && w.hdr.Sized() && w.txnId < MAX_TXN_ID - 1 && a.Write? && b.Write?
    ensures var ops := Txn([a]) + Txn([b]) + [MarkDone(true)];
      && Finished(crc, w, ops)
      && Run(crc, w, ops).slots == [BeginSlot(w.txnId), DataSlot(a.offset, a.data), EndSlot(w.txnId, x),
                                    BeginSlot(w.txnId + 1), DataSlot(b.offset, b.data), EndSlot(w.txnId + 1, y)]
  {
    hide Runnable, Run, Finished, Txn;
    RunNothing(crc, w);
    x := RunTxn(crc, w, [], [a]);
    assert [] + Txn([a]) == Txn([a]);
    y := RunTxn(crc, w, Txn([a]), [b]);
    RunDone(crc, w, Txn([a]) + Txn([b]));
  }

  lemma {:induction false} TwoCommitted(ss: seq<Slot>)
    requires TwoWrites(ss)
    ensures Committed(ss) == [[ss[1]], [ss[4]]]
  {
    hide OpenAt, Committed;
    TwoWritesOpen(ss);
    NoneYet(seq(|ss|, _ => ZERO_TAG), ss);
    CommittedStep(ss, 0);
    CommittedStep(ss, 1);
    CommittedStep(ss, 2);
    CommittedStep(ss, 3);
    CommittedStep(ss, 4);
    CommittedStep(ss, 5);
    assert ss[..6] == ss && ss[1..2] == [ss[1]] && ss[4..5] == [ss[4]];
  }

  /* ----- what replay gets to see of a short session ----- */

  lemma ShortSession(crc: Crc, w: Writer, f: File, ops: seq<Op>, dev: File) returns (f1: File)
    requires Started(crc, w, f) && Finished(crc, w, ops) && |Run(crc, w, ops).slots| < KEYS_PER_BLOCK
    ensures f1 == Apply(f, Trace(crc, w, ops)) && Recover(crc, f1, dev) == ScanTo(crc, f1, dev, 0, KEYS_PER_BLOCK).dev
    ensures var st, ss := ScanTo(crc, f1, dev, 0, 0), Run(crc, w, ops).slots;
      && st.tags == Front(crc, ss, 1) && st.dev == dev && st.txnId == 0 && !st.replayed
      && st.cursor == HEADER_SIZE + REDO_LOG_BLOCK_SIZE && DataStored(st.log, st.tags, ss)
  {
    hide Apply, Trace, Runnable, Replayable, Run, ReplayScan, LooseImage, DataStored;
    f1 := Apply(f, Trace(crc, w, ops));
    var nb := FinishedImage(crc, w, f, ops);
    OnlyBlock(crc, f1, Run(crc, w, ops).slots, dev);
    ScanToEnd(crc, f1, dev);
  }

  lemma OnlyBlock(crc: Crc, f: File, ss: seq<Slot>, dev: File)
    requires LooseImage(crc, f, ss, 1) && |ss| < KEYS_PER_BLOCK
    ensures HeaderOf(f).numKeys == 0
    ensures var st := ScanTo(crc, f, dev, 0, 0);
      && st.tags == Front(crc, ss, 1) && st.dev == dev && st.txnId == 0 && !st.replayed
      && st.cursor == HEADER_SIZE + REDO_LOG_BLOCK_SIZE && DataStored(st.log, st.tags, ss)
  {
    hide PRead, DecodeBlock, DecodeHead, HeaderOf, Index, TagOf, Pos;
    var ts := Front(crc, ss, 1);
    assert BlockPos(ts, 0) == HEADER_SIZE && BlockOf(ts, 0) == ts;
    assert ScanTo(crc, f, dev, 0, 0) == ReadBlock(StartScan(f, dev), HEADER_SIZE);
  }

  lemma ReadBoth(f: File, at: nat, a: seq<byte>, b: seq<byte>)
    requires PRead(f, at, |a|) == a && PRead(f, at + |a|, |b|) == b
    ensures PRead(f, at, |a| + |b|) == a + b
  {
    forall i | 0 <= i < |a| + |b|
      ensures PRead(f, at, |a| + |b|)[i] == (a + b)[i]
    {
      if i < |a| {
        assert PRead(f, at, |a|)[i] == a[i];
      } else {
        assert PRead(f, at + |a|, |b|)[i - |a|] == b[i - |a|];
      }
    }
  }

  /* ----- the scan of a short session ----- */

  lemma {:induction false} NoMarkers(crc: Crc, f: File, dev: File, j: nat)
    requires j <= KEYS_PER_BLOCK && forall i :: 0 <= i < j ==> !IsMarker(ScanTo(crc, f, dev, 0, 0).tags[i])
    ensures ScanTo(crc, f, dev, 0, j) == ScanTo(crc, f, dev, 0, 0).(csum := ScanTo(crc, f, dev, 0, j).csum)
  {
    hide ScanTo, ScanSlot;
    if j == 0 {
      assert ScanTo(crc, f, dev, 0, j) == ScanTo(crc, f, dev, 0, 0);
    } else {
      NoMarkers(crc, f, dev, j - 1);
      ScanToNext(crc, f, dev, 0, j - 1);
      DataScanned(crc, ScanTo(crc, f, dev, 0, j - 1), j - 1);
    }
  }

  /** The scan up to slot `g` has found no marker; slots `g..g + 3` are a transaction of one write. */
  lemma OneCopied(crc: Crc, f: File, dev: File, g: nat)
    requires g + 3 <= KEYS_PER_BLOCK
    requires var st := ScanTo(crc, f, dev, 0, g);
      && st.txnId == 0 && IsMarker(st.tags[g]) && st.tags[g].offset == 0
      && !IsMarker(st.tags[g + 1]) && IsMarker(st.tags[g + 2])
    ensures var st, r := ScanTo(crc, f, dev, 0, g), ScanTo(crc, f, dev, 0, g + 3);
      && r.dev == PWrite(st.dev, st.tags[g + 1].offset, PRead(st.log, st.cursor, st.tags[g + 1].size))
      && r.txnId == 0 && forall i :: g + 2 < i < KEYS_PER_BLOCK ==> r.tags[i] == st.tags[i]
  {
    hide ScanTo, ScanSlot, IsMarker, PWrite, PRead;
    ScanToNext(crc, f, dev, 0, g);
    BeginScanned(crc, ScanTo(crc, f, dev, 0, g), g);
    ScanToNext(crc, f, dev, 0, g + 1);
    DataScanned(crc, ScanTo(crc, f, dev, 0, g + 1), g + 1);
    ScanToNext(crc, f, dev, 0, g + 2);
    CopiesOne(crc, ScanTo(crc, f, dev, 0, g + 2), g + 2);
  }

  /* ----- brackets of the sessions ----- */

  lemma {:induction false} NestedWrites(ops: seq<Op>, ws: seq<Op>)
    requires Nested(ops) && InTxn(ops) && AllWrites(ws)
    ensures Nested(ops + ws) && InTxn(ops + ws)
  {
    if ws == [] {
      assert ops + ws == ops;
    } else {
      NestedWrites(ops, ws[..|ws| - 1]);
      assert (ops + ws)[..|ops + ws| - 1] == ops + ws[..|ws| - 1];
    }
  }

  lemma {:induction false} NestedTxn(ops: seq<Op>, ws: seq<Op>)
    requires Nested(ops) && !InTxn(ops) && AllWrites(ws)
    ensures Nested(ops + Txn(ws)) && !InTxn(ops + Txn(ws))
  {
    assert (ops + [Begin])[..|ops|] == ops;
    NestedWrites(ops + [Begin], ws);
    var all := ops + Txn(ws);
    assert all[..|all| - 1] == ops + [Begin] + ws;
  }

  lemma NestedDone(ops: seq<Op>)
    requires Nested(ops)
    ensures Nested(ops + [MarkDone(true)])
  {
    assert (ops + [MarkDone(true)])[..|ops|] == ops;
  }

  lemma OneTxnNested(ws: seq<Op>)
    requires AllWrites(ws)
    ensures Nested(Txn(ws) + [MarkDone(true)])
    ensures NoEmptyWrite(ws) ==> Bracketed(Txn(ws) + [MarkDone(true)])
  {
    NestedTxn([], ws);
    assert [] + Txn(ws) == Txn(ws);
    NestedDone(Txn(ws));
    BracketedExactly(Txn(ws) + [MarkDone(true)]);
  }

  lemma TwoTxnsNested(a: Op, b: Op)
    requires a.Write? && b.Write?
    ensures Nested(Txn([a]) + Txn([b]) + [MarkDone(true)])
    ensures a.data != [] && b.data != [] ==> Bracketed(Txn([a]) + Txn([b]) + [MarkDone(true)])
  {
    NestedTxn([], [a]);
    assert [] + Txn([a]) == Txn([a]);
    NestedTxn(Txn([a]), [b]);
    NestedDone(Txn([a]) + Txn([b]));
    BracketedExactly(Txn([a]) + Txn([b]) + [MarkDone(true)]);
  }

  /* ----- a counter of 0 ----- */

  /**
   Opening a log that an earlier session finished leaves `txn_id` at 0, so the first transaction of the new
   session gets markers that replay takes for empty slots. It is committed and marked done, and never replayed.
   */
  lemma FirstTransactionLost(crc: Crc, w: Writer, f: File, a: Op, dev: File)
    requires Started(crc, w, f) && w.txnId == 0 && a.Write? && a.data != []
    ensures var ops := Txn([a]) + [MarkDone(true)];
      && Finished(crc, w, ops) && Bracketed(ops)
      && Committed(Run(crc, w, ops).slots) == [[DataSlot(a.offset, a.data)]]
      && Recover(crc, Apply(f, Trace(crc, w, ops)), dev) == dev
  {
    hide Apply, Trace, Runnable, Run, Txn, ScanTo, Recover, Replayable, Bracketed, DataStored, Committed;
    var ops := Txn([a]) + [MarkDone(true)];
    var x := OneTxn(crc, w, [a]);
    OneTxnNested([a]);
    var f1 := ShortSession(crc, w, f, ops, dev);
    NoMarkers(crc, f1, dev, KEYS_PER_BLOCK);
    var ss := Run(crc, w, ops).slots;
    assert ss == [BeginSlot(w.txnId), DataSlot(a.offset, a.data), EndSlot(w.txnId, x)];
    OneCommitted(ss);
    assert ss[1..2] == [ss[1]];
  }

  lemma {:induction false} OneCommitted(ss: seq<Slot>)
    requires |ss| >= 2 && ss[0].BeginSlot? && (forall i :: 1 <= i < |ss| - 1 ==> ss[i].DataSlot?)
    requires ss[|ss| - 1].EndSlot?
    ensures Committed(ss) == [ss[1..|ss| - 1]]
  {
    hide OpenAt, Committed;
    OpenThrough(ss, |ss| - 1);
    NoneCommitted(ss, |ss| - 1);
    CommittedStep(ss, |ss| - 1);
    assert ss[..|ss|] == ss;
  }

  lemma {:induction false} NoneCommitted(ss: seq<Slot>, g: nat)
    requires g <= |ss| && forall i :: 0 <= i < g ==> !ss[i].EndSlot?
    ensures Committed(ss[..g]) == []
  {
    hide OpenAt;
    if g == 0 {
      assert ss[..g] == [];
    } else {
      NoneCommitted(ss, g - 1);
      CommittedStep(ss, g - 1);
    }
  }

  /**
   With the counter at 0 atomicity fails in a session that keeps every bracket rule: the first transaction's data is
   never stepped over, so the second transaction is written with the bytes logged from the first one's data on.
   */
  lemma SecondTransactionCorrupted(crc: Crc, w: Writer, f: File, a: Op, b: Op, dev: File)
    requires Started(crc, w, f) && w.txnId == 0 && a.Write? && b.Write? && a.data != [] && b.data != []
    ensures var ops := Txn([a]) + Txn([b]) + [MarkDone(true)];
      && Finished(crc, w, ops) && Bracketed(ops)
      && Committed(Run(crc, w, ops).slots) == [[DataSlot(a.offset, a.data)], [DataSlot(b.offset, b.data)]]
      && Recover(crc, Apply(f, Trace(crc, w, ops)), dev) == PWrite(dev, b.offset, (a.data + b.data)[..|b.data|])
  {
    hide Apply, Trace, Runnable, Run, Txn, ScanTo, Recover, Replayable, Bracketed, DataStored, Committed, PWrite;
    var ops := Txn([a]) + Txn([b]) + [MarkDone(true)];
    var x, y := TwoTxns(crc, w, a, b);
    TwoTxnsNested(a, b);
    var ss := Run(crc, w, ops).slots;
    TwoCommitted(ss);
    var f1 := ShortSession(crc, w, f, ops, dev);
    var st := ScanTo(crc, f1, dev, 0, 0);
    NoMarkers(crc, f1, dev, 3);
    OneCopied(crc, f1, dev, 3);
    ZeroTail(crc, f1, dev, 0, 6, KEYS_PER_BLOCK);
    ReadFromFirst(st.log, st.tags, ss, 1, 4);
  }

  /**
   Two data slots with only markers before, between and behind: what is read from where the first one's data starts.
   */
  lemma ReadFromFirst(f: File, ts: seq<Tag>, ss: seq<Slot>, i: nat, k: nat)
    requires i < k < |ss| <= |ts| == KEYS_PER_BLOCK && DataStored(f, ts, ss) && ss[i].DataSlot? && ss[k].DataSlot?
    requires forall g :: 0 <= g < k && g != i ==> ts[g].size == 0
    requires ts[i].size == |ss[i].data|
    ensures PRead(f, HEADER_SIZE + REDO_LOG_BLOCK_SIZE, |ss[k].data|) == (ss[i].data + ss[k].data)[..|ss[k].data|]
  {
    hide PRead, SizeUpTo;
    SizeOfOne(ts, i, i);
    SizeOfOne(ts, i, k);
    ReadBoth(f, Pos(ts, i), ss[i].data, ss[k].data);
    ReadShorter(f, Pos(ts, i), |ss[k].data|, |ss[i].data| + |ss[k].data|);
  }

  lemma {:induction false} SizeOfOne(ts: seq<Tag>, i: nat, k: nat)
    requires i < |ts| && k <= |ts| && forall g :: 0 <= g < k && g != i ==> ts[g].size == 0
    ensures SizeUpTo(ts, k) == if i < k then ts[i].size else 0
    decreases k
  {
    if k == 0 {
      assert SizeUpTo(ts, k) == 0;
    } else {
      SizeOfOne(ts, i, k - 1);
    }
  }

  /** Where the two logged writes differ and lie apart, no number of whole transactions explains that device. */
  lemma CorruptedIsNotAtomic(dev: File, a: Op, b: Op, m: nat)
    requires a.Write? && b.Write? && a.data != [] && b.data != [] && a.data[0] != b.data[0] && m <= 2
    requires a.offset + |a.data| <= b.offset && ByteAt(dev, b.offset) != a.data[0]
    ensures ReadsDiffer(PWrite(dev, b.offset, (a.data + b.data)[..|b.data|]),
                        ApplyTxns(dev, [[DataSlot(a.offset, a.data)], [DataSlot(b.offset, b.data)]][..m]))
  {
    hide ApplyTxns, PWrite, ByteAt, ReadsDiffer;
    var s, t, bytes := DataSlot(a.offset, a.data), DataSlot(b.offset, b.data), (a.data + b.data)[..|b.data|];
    var once := PWrite(dev, a.offset, a.data);
    WritesAt(dev, b.offset, bytes, 0);
    WriteApart(dev, a.offset, a.data, b.offset);
    WritesAt(once, b.offset, b.data, 0);
    AppliedFew(dev, s, t);
    DiffersAt(PWrite(dev, b.offset, bytes), dev, b.offset);
    DiffersAt(PWrite(dev, b.offset, bytes), once, b.offset);
    DiffersAt(PWrite(dev, b.offset, bytes), PWrite(once, b.offset, b.data), b.offset);
    assert [[s], [t]][..0] == [] && [[s], [t]][..1] == [[s]] && [[s], [t]][..2] == [[s], [t]];
  }

  lemma AppliedFew(dev: File, s: Slot, t: Slot)
    requires s.DataSlot? && t.DataSlot?
    ensures ApplyTxns(dev, []) == dev && ApplyTxns(dev, [[s]]) == PWrite(dev, s.offset, s.data)
    ensures ApplyTxns(dev, [[s], [t]]) == PWrite(PWrite(dev, s.offset, s.data), t.offset, t.data)
  {
    hide PWrite;
    assert [[s]][..0] == [] && [[s], [t]][..1] == [[s]] && [s][..0] == [] && [t][..0] == [];
    var once := PWrite(dev, s.offset, s.data);
    assert ApplySlots(dev, [s]) == once;
    OneApplied(dev, [s]);
    assert ApplySlots(once, [t]) == PWrite(once, t.offset, t.data);
  }

  lemma WriteApart(dev: File, off: nat, bs: seq<byte>, at: nat)
    requires at < off || off + |bs| <= at
    ensures ByteAt(PWrite(dev, off, bs), at) == ByteAt(dev, at)
  {
  }

  /* ----- empty writes ----- */

  /** A write of size zero, whose checksum is not 0, reads as a marker. */
  lemma EmptyIsMarker(crc: Crc, e: Op)
    requires e.Write? && e.data == [] && crc([]) > 0
    ensures IsMarker(TagOf(crc, DataSlot(e.offset, e.data)))
  {
  }

  /**
   An empty write tears its own transaction: its slot reads as the end marker, so what was logged before it is applied
   and what was logged behind it is not.
   */
  lemma EmptyWriteTears(crc: Crc, w: Writer, f: File, a: Op, e: Op, b: Op, dev: File)
    requires Started(crc, w, f) && 0 < w.txnId < MAX_TXN_ID && crc([]) > 0
    requires a.Write? && e.Write? && b.Write? && a.data != [] && e.data == [] && b.data != []
    ensures var ops := Txn([a, e, b]) + [MarkDone(true)];
      && Finished(crc, w, ops) && Nested(ops)
      && Committed(Run(crc, w, ops).slots) ==
         [[DataSlot(a.offset, a.data), DataSlot(e.offset, e.data), DataSlot(b.offset, b.data)]]
      && Recover(crc, Apply(f, Trace(crc, w, ops)), dev) == PWrite(dev, a.offset, a.data)
  {
    hide Apply, Trace, Runnable, Run, Txn, ScanTo, Recover, Replayable, Nested, DataStored, Committed, PWrite, PRead,
         Pos;
    var ops := Txn([a, e, b]) + [MarkDone(true)];
    var x := OneTxn(crc, w, [a, e, b]);
    OneTxnNested([a, e, b]);
    var ss := Run(crc, w, ops).slots;
    assert ss == [BeginSlot(w.txnId), DataSlot(a.offset, a.data), DataSlot(e.offset, e.data),
                  DataSlot(b.offset, b.data), EndSlot(w.txnId, x)];
    OneCommitted(ss);
    assert ss[1..4] == [ss[1], ss[2], ss[3]];
    var f1 := ShortSession(crc, w, f, ops, dev);
    var st := ScanTo(crc, f1, dev, 0, 0);
    EmptyIsMarker(crc, e);
    OneCopied(crc, f1, dev, 0);
    OneRead(st.log, st.tags, ss);
    TornTail(crc, f1, dev);
  }

  lemma OneRead(f: File, ts: seq<Tag>, ss: seq<Slot>)
    requires 2 <= |ss| <= |ts| && DataStored(f, ts, ss) && ss[1].DataSlot? && ts[0].size == 0
    ensures PRead(f, HEADER_SIZE + REDO_LOG_BLOCK_SIZE, |ss[1].data|) == ss[1].data
  {
    hide PRead;
    PosStep(ts, 0);
  }

  /** Slots 3 and 4 behind a torn transaction: data outside any, and a marker that opens one never ended. */
  lemma TornTail(crc: Crc, f: File, dev: File)
    requires var st := ScanTo(crc, f, dev, 0, 3);
      && st.txnId == 0 && !IsMarker(st.tags[3]) && IsMarker(st.tags[4])
      && forall i :: 5 <= i < KEYS_PER_BLOCK ==> st.tags[i] == ZERO_TAG
    ensures ScanTo(crc, f, dev, 0, KEYS_PER_BLOCK).dev == ScanTo(crc, f, dev, 0, 3).dev
  {
    hide ScanTo, ScanSlot, IsMarker;
    ScanToNext(crc, f, dev, 0, 3);
    DataScanned(crc, ScanTo(crc, f, dev, 0, 3), 3);
    ScanToNext(crc, f, dev, 0, 4);
    BeginScanned(crc, ScanTo(crc, f, dev, 0, 4), 4);
    ZeroTail(crc, f, dev, 0, 5, KEYS_PER_BLOCK);
  }

  /** If the torn transaction changes the device in both halves, the result is neither nothing nor all of it. */
  lemma TornIsNotAtomic(dev: File, a: Op, e: Op, b: Op, m: nat)
    requires a.Write? && e.Write? && b.Write? && a.data != [] && e.data == [] && b.data != [] && m <= 1
    requires ByteAt(dev, a.offset) != a.data[0] && ByteAt(dev, b.offset) != b.data[0] && a.offset + |a.data| <= b.offset
    ensures ReadsDiffer(PWrite(dev, a.offset, a.data),
                        ApplyTxns(dev, [[DataSlot(a.offset, a.data), DataSlot(e.offset, e.data),
                                         DataSlot(b.offset, b.data)]][..m]))
  {
    hide PWrite, ApplyTxns, ByteAt, ReadsDiffer;
    var s, t, u := DataSlot(a.offset, a.data), DataSlot(e.offset, e.data), DataSlot(b.offset, b.data);
    var once := PWrite(dev, a.offset, a.data);
    var part := PWrite(once, e.offset, e.data);
    WritesAt(dev, a.offset, a.data, 0);
    WriteApart(dev, a.offset, a.data, b.offset);
    WritesAt(part, b.offset, b.data, 0);
    NothingApplied(dev);
    OneApplied(dev, [s, t, u]);
    assert [s, t, u][..2] == [s, t] && [s, t][..1] == [s] && [s][..0] == [];
    assert ApplySlots(dev, [s]) == once;
    assert ApplySlots(dev, [s, t]) == part;
    assert ApplySlots(dev, [s, t, u]) == PWrite(part, b.offset, b.data);
    DiffersAt(once, dev, a.offset);
    DiffersAt(once, PWrite(part, b.offset, b.data), b.offset);
    assert [[s, t, u]][..0] == [] && [[s, t, u]][..1] == [[s, t, u]];
  }

  /** An empty write that is a transaction of its own loses the one after it: replay is out of step from there on. */
  lemma EmptyWriteLosesNext(crc: Crc, w: Writer, f: File, e: Op, b: Op, dev: File)
    requires Started(crc, w, f) && 0 < w.txnId < MAX_TXN_ID - 1 && crc([]) > 0
    requires e.Write? && b.Write? && e.data == [] && b.data != []
    ensures var ops := Txn([e]) + Txn([b]) + [MarkDone(true)];
      && Finished(crc, w, ops) && Nested(ops)
      && Committed(Run(crc, w, ops).slots) == [[DataSlot(e.offset, e.data)], [DataSlot(b.offset, b.data)]]
      && Recover(crc, Apply(f, Trace(crc, w, ops)), dev) == dev
  {
    hide Apply, Trace, Runnable, Run, Txn, ScanTo, Recover, Replayable, Nested, DataStored, Committed, IsMarker;
    var ops := Txn([e]) + Txn([b]) + [MarkDone(true)];
    var x, y := TwoTxns(crc, w, e, b);
    TwoTxnsNested(e, b);
    var ss := Run(crc, w, ops).slots;
    TwoCommitted(ss);
    var f1 := ShortSession(crc, w, f, ops, dev);
    var ts := ScanTo(crc, f1, dev, 0, 0).tags;
    EmptyIsMarker(crc, e);
    assert forall i :: 0 <= i < 6 ==> ts[i] == TagOf(crc, ss[i]);
    TagMarkers(crc, ss[0]);
    TagMarkers(crc, ss[2]);
    TagMarkers(crc, ss[3]);
    TagMarkers(crc, ss[4]);
    TagMarkers(crc, ss[5]);
    OutOfStep(crc, f1, dev);
  }

  lemma TagMarkers(crc: Crc, s: Slot)
    requires s.DataSlot? ==> s.data != []
    requires !s.DataSlot? ==> s.id > 0
    ensures IsMarker(TagOf(crc, s)) <==> !s.DataSlot?
  {
  }

  /**
   The empty write is taken for the end marker; the next transaction's end marker then opens one that is never ended.
   */
  lemma OutOfStep(crc: Crc, f: File, dev: File)
    requires var st := ScanTo(crc, f, dev, 0, 0);
      && st.txnId == 0 && IsMarker(st.tags[0]) && IsMarker(st.tags[1]) && IsMarker(st.tags[2]) && IsMarker(st.tags[3])
      && !IsMarker(st.tags[4]) && IsMarker(st.tags[5]) && forall i :: 6 <= i < KEYS_PER_BLOCK ==> st.tags[i] == ZERO_TAG
    ensures ScanTo(crc, f, dev, 0, KEYS_PER_BLOCK).dev == ScanTo(crc, f, dev, 0, 0).dev
  {
    hide ScanTo, ScanSlot, IsMarker;
    ScanToNext(crc, f, dev, 0, 0);
    BeginScanned(crc, ScanTo(crc, f, dev, 0, 0), 0);
    ScanToNext(crc, f, dev, 0, 1);
    CopiesNone(crc, ScanTo(crc, f, dev, 0, 1), 1);
    ScanToNext(crc, f, dev, 0, 2);
    BeginScanned(crc, ScanTo(crc, f, dev, 0, 2), 2);
    ScanToNext(crc, f, dev, 0, 3);
    CopiesNone(crc, ScanTo(crc, f, dev, 0, 3), 3);
    ScanToNext(crc, f, dev, 0, 4);
    DataScanned(crc, ScanTo(crc, f, dev, 0, 4), 4);
    ScanToNext(crc, f, dev, 0, 5);
    BeginScanned(crc, ScanTo(crc, f, dev, 0, 5), 5);
    ZeroTail(crc, f, dev, 0, 6, KEYS_PER_BLOCK);
  }

  /* ----- a write outside any transaction ----- */

  /** A write logged before the transaction begins is never stepped over: the transaction is written with its bytes. */
  lemma StrayWriteCorrupts(crc: Crc, w: Writer, f: File, a: Op, b: Op, dev: File)
    requires Started(crc, w, f) && 0 < w.txnId < MAX_TXN_ID && a.Write? && b.Write? && a.data != [] && b.data != []
    ensures var ops := [a] + Txn([b]) + [MarkDone(true)];
      && Finished(crc, w, ops) && NoEmptyWrite(ops)
      && Committed(Run(crc, w, ops).slots) == [[DataSlot(b.offset, b.data)]]
      && Recover(crc, Apply(f, Trace(crc, w, ops)), dev) == PWrite(dev, b.offset, (a.data + b.data)[..|b.data|])
  {
    hide Apply, Trace, Runnable, Run, ScanTo, Recover, Replayable, DataStored, Committed, PWrite;
    var ops := [a] + Txn([b]) + [MarkDone(true)];
    RunNothing(crc, w);
    RunWrites(crc, w, [], [a]);
    assert [] + [a] == [a];
    var y := RunTxn(crc, w, [a], [b]);
    RunDone(crc, w, [a] + Txn([b]));
    var ss := Run(crc, w, ops).slots;
    assert ss == [DataSlot(a.offset, a.data), BeginSlot(w.txnId), DataSlot(b.offset, b.data), EndSlot(w.txnId, y)];
    LastCommitted(ss);
    var f1 := ShortSession(crc, w, f, ops, dev);
    var st := ScanTo(crc, f1, dev, 0, 0);
    NoMarkers(crc, f1, dev, 1);
    OneCopied(crc, f1, dev, 1);
    ZeroTail(crc, f1, dev, 0, 4, KEYS_PER_BLOCK);
    ReadFromFirst(st.log, st.tags, ss, 0, 2);
  }

  lemma StrayIsNotAtomic(dev: File, a: Op, b: Op, m: nat)
    requires a.Write? && b.Write? && a.data != [] && b.data != [] && a.data[0] != b.data[0] && m <= 1
    requires ByteAt(dev, b.offset) != a.data[0]
    ensures ReadsDiffer(PWrite(dev, b.offset, (a.data + b.data)[..|b.data|]),
                        ApplyTxns(dev, [[DataSlot(b.offset, b.data)]][..m]))
  {
    hide ApplyTxns, PWrite, ByteAt, ReadsDiffer;
    var t, bytes := DataSlot(b.offset, b.data), (a.data + b.data)[..|b.data|];
    WritesAt(dev, b.offset, bytes, 0);
    WritesAt(dev, b.offset, b.data, 0);
    AppliedFew(dev, t, t);
    DiffersAt(PWrite(dev, b.offset, bytes), dev, b.offset);
    DiffersAt(PWrite(dev, b.offset, bytes), PWrite(dev, b.offset, b.data), b.offset);
    assert [[t]][..0] == [] && [[t]][..1] == [[t]];
  }

  /* ----- markers out of order ----- */

  /**
   A begin inside a transaction is taken for its end: what was logged before it is applied, the transaction is not.
   */
  lemma BeginInsideTears(crc: Crc, w: Writer, f: File, a: Op, b: Op, dev: File)
    requires Started(crc, w, f) && 0 < w.txnId < MAX_TXN_ID && a.Write? && b.Write? && a.data != [] && b.data != []
    ensures var ops := [Begin, a] + Txn([b]) + [MarkDone(true)];
      && Finished(crc, w, ops) && NoEmptyWrite(ops)
      && Committed(Run(crc, w, ops).slots) == [[DataSlot(b.offset, b.data)]]
      && Recover(crc, Apply(f, Trace(crc, w, ops)), dev) == PWrite(dev, a.offset, a.data)
  {
    hide Apply, Trace, Runnable, Run, ScanTo, Recover, Replayable, DataStored, Committed, PWrite, PRead, Pos, Txn;
    var ops := [Begin, a] + Txn([b]) + [MarkDone(true)];
    var y := BeginInsideRun(crc, w, a, b);
    var ss := Run(crc, w, ops).slots;
    LastCommitted(ss);
    var f1 := ShortSession(crc, w, f, ops, dev);
    OneCopied(crc, f1, dev, 0);
    OneRead(ScanTo(crc, f1, dev, 0, 0).log, ScanTo(crc, f1, dev, 0, 0).tags, ss);
    TornTail(crc, f1, dev);
  }

  lemma BeginInsideRun(crc: Crc, w: Writer, a: Op, b: Op) returns (y: u32)
    requires w.slots == [] && w.hdr.Sized() && w.txnId < MAX_TXN_ID && a.Write? && b.Write?
    ensures var ops := [Begin, a] + Txn([b]) + [MarkDone(true)];
      && Finished(crc, w, ops) && (a.data != [] && b.data != [] ==> NoEmptyWrite(ops))
      && Run(crc, w, ops).slots == [BeginSlot(w.txnId), DataSlot(a.offset, a.data), BeginSlot(w.txnId),
                                    DataSlot(b.offset, b.data), EndSlot(w.txnId, y)]
  {
    hide Runnable, Run, Xor32, TagCrc;
    RunNothing(crc, w);
    RunStep(crc, w, [], Begin);
    assert [] + [Begin] == [Begin] && [Begin] + [a] == [Begin, a];
    RunWrites(crc, w, [Begin], [a]);
    y := RunTxn(crc, w, [Begin, a], [b]);
    RunDone(crc, w, [Begin, a] + Txn([b]));
  }

  lemma InsideIsNotAtomic(dev: File, a: Op, b: Op, m: nat)
    requires a.Write? && b.Write? && a.data != [] && m <= 1 && a.offset + |a.data| <= b.offset
    requires ByteAt(dev, a.offset) != a.data[0]
    ensures ReadsDiffer(PWrite(dev, a.offset, a.data), ApplyTxns(dev, [[DataSlot(b.offset, b.data)]][..m]))
  {
    hide ApplyTxns, PWrite, ByteAt, ReadsDiffer;
    var t := DataSlot(b.offset, b.data);
    WritesAt(dev, a.offset, a.data, 0);
    WriteApart(dev, b.offset, b.data, a.offset);
    AppliedFew(dev, t, t);
    DiffersAt(PWrite(dev, a.offset, a.data), dev, a.offset);
    DiffersAt(PWrite(dev, a.offset, a.data), PWrite(dev, b.offset, b.data), a.offset);
    assert [[t]][..0] == [] && [[t]][..1] == [[t]];
  }

  /** Only the last three slots are a transaction. */
  lemma {:induction false} LastCommitted(ss: seq<Slot>)
    requires |ss| >= 3 && (forall i :: 0 <= i < |ss| - 1 ==> !ss[i].EndSlot?)
    requires ss[|ss| - 3].BeginSlot? && ss[|ss| - 2].DataSlot? && ss[|ss| - 1].EndSlot?
    ensures Committed(ss) == [[ss[|ss| - 2]]]
  {
    hide Committed;
    var n := |ss|;
    NoneCommitted(ss, n - 1);
    CommittedStep(ss, n - 1);
    assert ss[..n - 1][..n - 2] == ss[..n - 2] && ss[..n] == ss && ss[n - 2..n - 1] == [ss[n - 2]];
    assert OpenAt(ss[..n - 2]) == n - 3 && OpenAt(ss[..n - 1]) == n - 3;
  }

  /** An end outside any transaction is taken for a begin: the transaction behind it is never replayed. */
  lemma EndOutsideLoses(crc: Crc, w: Writer, f: File, b: Op, dev: File)
    requires Started(crc, w, f) && 0 < w.txnId < MAX_TXN_ID - 1 && b.Write? && b.data != []
    ensures var ops := [End] + Txn([b]) + [MarkDone(true)];
      && Finished(crc, w, ops) && NoEmptyWrite(ops)
      && Committed(Run(crc, w, ops).slots) == [[DataSlot(b.offset, b.data)]]
      && Recover(crc, Apply(f, Trace(crc, w, ops)), dev) == dev
  {
    hide Apply, Trace, Runnable, Run, ScanTo, ScanSlot, Recover, Replayable, DataStored, Committed, Xor32, TagCrc;
    var ops := [End] + Txn([b]) + [MarkDone(true)];
    RunNothing(crc, w);
    RunStep(crc, w, [], End);
    assert [] + [End] == [End];
    var x := Run(crc, w, [End]).slots[0].csum;
    var y := RunTxn(crc, w, [End], [b]);
    RunDone(crc, w, [End] + Txn([b]));
    var ss := Run(crc, w, ops).slots;
    assert ss == [EndSlot(w.txnId, x), BeginSlot(w.txnId + 1), DataSlot(b.offset, b.data), EndSlot(w.txnId + 1, y)];
    BehindEnd(ss);
    var f1 := ShortSession(crc, w, f, ops, dev);
    ScanToNext(crc, f1, dev, 0, 0);
    BeginScanned(crc, ScanTo(crc, f1, dev, 0, 0), 0);
    ScanToNext(crc, f1, dev, 0, 1);
    CopiesNone(crc, ScanTo(crc, f1, dev, 0, 1), 1);
    ScanToNext(crc, f1, dev, 0, 2);
    DataScanned(crc, ScanTo(crc, f1, dev, 0, 2), 2);
    ScanToNext(crc, f1, dev, 0, 3);
    BeginScanned(crc, ScanTo(crc, f1, dev, 0, 3), 3);
    ZeroTail(crc, f1, dev, 0, 4, KEYS_PER_BLOCK);
  }

  lemma {:induction false} BehindEnd(ss: seq<Slot>)
    requires |ss| == 4 && ss[0].EndSlot? && ss[1].BeginSlot? && ss[2].DataSlot? && ss[3].EndSlot?
    ensures Committed(ss) == [[ss[2]]]
  {
    hide Committed;
    NoneCommitted(ss, 0);
    CommittedStep(ss, 0);
    CommittedStep(ss, 1);
    CommittedStep(ss, 2);
    CommittedStep(ss, 3);
    assert ss[..0] == [] && ss[..3][..2] == ss[..2] && ss[..4] == ss && ss[2..3] == [ss[2]];
    assert OpenAt(ss[..2]) == 1 && OpenAt(ss[..3]) == 1;
  }

  /* ----- a transaction that fills an index block ----- */

  /** A session of 253 writes in one transaction, whose end marker is in slot 254, and one of a single write. */
  lemma FillingRun(crc: Crc, w: Writer, ws: seq<Op>, b: Op)
    requires w.slots == [] && w.hdr.Sized() && w.txnId < MAX_TXN_ID - 1 && AllWrites(ws) && |ws| == 253 && b.Write?
    ensures var ops := Txn(ws) + Txn([b]) + [MarkDone(true)];
      && Finished(crc, w, ops) && Nested(ops)
      && var ss := Run(crc, w, ops).slots;
         FillsBlock(ss) && ss[1..254] == Logged(ws) && ss[256] == DataSlot(b.offset, b.data)
  {
    hide Runnable, Run, Nested, InTxn, Txn;
    RunNothing(crc, w);
    var x := RunTxn(crc, w, [], ws);
    assert [] + Txn(ws) == Txn(ws);
    var y := RunTxn(crc, w, Txn(ws), [b]);
    RunDone(crc, w, Txn(ws) + Txn([b]));
    NestedFirst(ws);
    NestedTxn(Txn(ws), [b]);
    NestedDone(Txn(ws) + Txn([b]));
    var ss := Run(crc, w, Txn(ws) + Txn([b]) + [MarkDone(true)]).slots;
    assert ss == [BeginSlot(w.txnId)] + Logged(ws) +
                 [EndSlot(w.txnId, x), BeginSlot(w.txnId + 1), DataSlot(b.offset, b.data), EndSlot(w.txnId + 1, y)];
    assert forall i :: 1 <= i < 254 ==> ss[i] == Logged(ws)[i - 1];
  }

  lemma NestedFirst(ws: seq<Op>)
    requires AllWrites(ws)
    ensures Nested(Txn(ws)) && !InTxn(Txn(ws))
  {
    NestedTxn([], ws);
    assert [] + Txn(ws) == Txn(ws);
  }

  /** The finished log of a session that keeps the bracket rules, as replay finds it. */
  lemma FinishedLog(crc: Crc, w: Writer, f: File, ops: seq<Op>) returns (ts: seq<Tag>)
    requires Opened(crc, w, f) && Finished(crc, w, ops) && Bracketed(ops)
    ensures var ss, f1 := Run(crc, w, ops).slots, Apply(f, Trace(crc, w, ops));
      LogImage(crc, f1, ts, ss) && Unmarked(ts, ss) && |ts| == KEYS_PER_BLOCK * (|ss| / KEYS_PER_BLOCK + 1)
  {
    hide Apply, Trace, Runnable, Run, Bracketed, Replayable, Good, Holds, HeaderOf, Tagged, Unmarked, Checksummed,
         WellBracketed;
    var ws, ss := Trace(crc, w, ops), Run(crc, w, ops).slots;
    OpenedIsGood(crc, w, f);
    SessionSlots(crc, w, ops);
    var n, nb, floor := SessionKeepsGood(crc, w, f, 0, -1, ops, |ws|);
    assert ws[..|ws|] == ws && ss[..n] == ss;
    GoodIsLoose(crc, Apply(f, ws), ss, nb);
    var v;
    ts, v := CrashImage(crc, Apply(f, ws), ss, nb, floor);
    assert ss[..v] == ss;
  }

  /** So alignment is needed for atomicity too: a session that keeps every other rule. */
  lemma UnalignedIsNotAtomic(crc: Crc, w: Writer, f: File, ws: seq<Op>, b: Op, dev: File, m: nat)
    requires Opened(crc, w, f) && w.txnId < MAX_TXN_ID - 1 && AllWrites(ws) && |ws| == 253 && b.Write?
    requires NoEmptyWrite(ws + [b])
    requires |b.data| > 16 && b.data[16] != 0 && m <= 2
    requires ByteAt(dev, b.offset + 16) != 0 && ByteAt(ApplySlots(dev, Logged(ws)), b.offset + 16) != 0
    ensures var ops := Txn(ws) + Txn([b]) + [MarkDone(true)];
      && Finished(crc, w, ops) && Bracketed(ops)
      && var txns := Committed(Run(crc, w, ops).slots);
         |txns| == 2 && ReadsDiffer(Recover(crc, Apply(f, Trace(crc, w, ops)), dev), ApplyTxns(dev, txns[..m]))
  {
    hide Apply, Trace, Runnable, Run, Txn, Bracketed, Nested, Replayable, ReplayScan, ApplyTxns, ApplySlots, Committed,
         ByteAt, ReadsDiffer, Unmarked, Tagged, Holds, HeaderOf, PWrite;
    var ops := Txn(ws) + Txn([b]) + [MarkDone(true)];
    FillingRun(crc, w, ws, b);
    FillingBracketed(ws, b);
    var ts := FinishedLog(crc, w, f, ops);
    LastSlotCorrupts(crc, Apply(f, Trace(crc, w, ops)), ts, Run(crc, w, ops).slots, dev);
  }

  lemma FillingBracketed(ws: seq<Op>, b: Op)
    requires NoEmptyWrite(ws + [b]) && Nested(Txn(ws) + Txn([b]) + [MarkDone(true)])
    ensures Bracketed(Txn(ws) + Txn([b]) + [MarkDone(true)])
  {
    hide Nested, Bracketed;
    BracketedExactly(Txn(ws) + Txn([b]) + [MarkDone(true)]);
    assert forall op :: op in Txn(ws) + Txn([b]) + [MarkDone(true)] && op.Write? ==> op in ws + [b];
  }
}
