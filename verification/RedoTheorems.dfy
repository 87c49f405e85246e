/** The properties of replay on a log image: exactly when it is right, and what running it again does. */
module RedoTheorems {
  import opened Bytes
  import opened RedoFormat
  import opened RedoLayout
  import opened RedoScan
  import opened RedoReplay

  /* ----- when the cursor is right ----- */

  lemma {:induction false} CopiesSameLength(ts: seq<Tag>, ss: seq<Slot>, g: nat)
    requires g <= |ss| <= |ts|
    ensures |Copies(ts, ss, g, true)| == |Copies(ts, ss, g, false)|
  {
    hide TxnCopies, Drift;
    if g == 0 {
    } else {
      CopiesSameLength(ts, ss, g - 1);
    }
  }

  lemma {:induction false} TxnCopiesExact(ts: seq<Tag>, x: nat, g: nat, d: int)
    requires x <= g <= |ts|
    ensures TxnCopies(ts, x, g, d) == TxnCopies(ts, x, g, 0) <==> x == g || d == 0
  {
    hide Pos;
    if x == g {
    } else {
      TxnCopiesExact(ts, x, g - 1, d);
      var a, b := TxnCopies(ts, x, g, d), TxnCopies(ts, x, g, 0);
      if a == b {
        assert a[g - 1 - x] == b[g - 1 - x];
      }
    }
  }

  /** Replay copies every slot from where its data was logged if and only if the cursor never lags. */
  lemma {:induction false} CopiesExact(ts: seq<Tag>, ss: seq<Slot>, g: nat)
    requires g <= |ss| <= |ts|
    ensures Copies(ts, ss, g, true) == Copies(ts, ss, g, false) <==> CursorTrue(ts, ss, g)
  {
    hide TxnCopies, Drift, Marked, OpenAt;
    if g == 0 {
    } else {
      CopiesExact(ts, ss, g - 1);
      CopiesSameLength(ts, ss, g - 1);
      if Ends(ss, g - 1) && !Marked(ts, OpenAt(ss[..g - 1])) {
        var x, d := OpenAt(ss[..g - 1]) + 1, Drift(ts, ss, g - 1);
        TxnCopiesExact(ts, x, g - 1, d);
        SplitEqual(Copies(ts, ss, g - 1, true), TxnCopies(ts, x, g - 1, d),
                   Copies(ts, ss, g - 1, false), TxnCopies(ts, x, g - 1, 0));
      }
    }
  }

  lemma SplitEqual<T>(a: seq<T>, x: seq<T>, b: seq<T>, y: seq<T>)
    requires |a| == |b|
    ensures a + x == b + y <==> a == b && x == y
  {
    if a + x == b + y {
      assert a == (a + x)[..|a|] && b == (b + y)[..|b|];
      assert x == (a + x)[|a|..] && y == (b + y)[|b|..];
    }
  }

  /**
   Data outside transactions is never harmless, a marked transaction only if it is empty and ends inside its index
   block, any other transaction only if it ends there.
   */
  predicate NoLag(ts: seq<Tag>, ss: seq<Slot>, e: nat)
    requires e < |ss| <= |ts|
  {
    !Stray(ss, e) &&
    (Ends(ss, e) ==>
      && e % KEYS_PER_BLOCK != KEYS_PER_BLOCK - 1
      && var b := OpenAt(ss[..e]);
         (Marked(ts, b) ==> b + 1 == e && b % KEYS_PER_BLOCK != KEYS_PER_BLOCK - 1))
  }

  /** The cursor does not lag at slot `g` if and only if nothing before it causes a lag. */
  lemma {:induction false} DriftExact(crc: Crc, ts: seq<Tag>, ss: seq<Slot>, g: nat)
    requires Tagged(crc, ts, ss) && g <= |ss|
    ensures Drift(ts, ss, g) >= 0
    ensures Drift(ts, ss, g) == 0 <==> forall e :: 0 <= e < g ==> NoLag(ts, ss, e)
  {
    hide Pos, OpenAt, Tagged;
    if g == 0 {
    } else {
      TaggedSizes(crc, ts, ss);
      DriftExact(crc, ts, ss, g - 1);
      if Ends(ss, g - 1) {
        ExtentExact(crc, ts, ss, g - 1);
      } else if Stray(ss, g - 1) {
        StraySize(crc, ts, ss, g - 1);
      }
      assert Drift(ts, ss, g) >= Drift(ts, ss, g - 1);
      assert Drift(ts, ss, g) == Drift(ts, ss, g - 1) <==> NoLag(ts, ss, g - 1);
      hide NoLag;
    }
  }

  lemma StraySize(crc: Crc, ts: seq<Tag>, ss: seq<Slot>, e: nat)
    requires Tagged(crc, ts, ss) && e < |ss| && ss[e].DataSlot?
    ensures |ss| <= |ts| && ts[e].size > 0
  {
    hide WellBracketed;
    NextPrefix(crc, ts, ss, e);
  }

  /** The extent of a transaction in the log is empty exactly when it has no data and crosses no index block. */
  lemma ExtentExact(crc: Crc, ts: seq<Tag>, ss: seq<Slot>, e: nat)
    requires Tagged(crc, ts, ss) && e < |ss| && Ends(ss, e)
    ensures var b := OpenAt(ss[..e]);
      && Pos(ts, e + 1) >= Pos(ts, b)
      && (Pos(ts, e + 1) == Pos(ts, b) <==>
            b + 1 == e && b % KEYS_PER_BLOCK != KEYS_PER_BLOCK - 1 && e % KEYS_PER_BLOCK != KEYS_PER_BLOCK - 1)
  {
    hide OpenAt, Tagged, SizeUpTo;
    var b := OpenAt(ss[..e]);
    ExtentSizes(crc, ts, ss, e);
    PosStep(ts, b);
    if b + 1 < e {
      DataApart(ts, b + 1, e + 1);
    } else {
      PosStep(ts, e);
    }
  }

  lemma ExtentSizes(crc: Crc, ts: seq<Tag>, ss: seq<Slot>, e: nat)
    requires Tagged(crc, ts, ss) && e < |ss| && Ends(ss, e)
    ensures var b := OpenAt(ss[..e]);
      |ss| <= |ts| && ts[b].size == 0 && ts[e].size == 0 && (b + 1 < e ==> ts[b + 1].size > 0)
  {
    hide OpenAt;
    var b := OpenAt(ss[..e]);
    assert ss[..e][b] == ss[b];
    if b + 1 < e {
      OpenSlotsAreData(ss[..e]);
      assert ss[..e][b + 1] == ss[b + 1];
      PrefixesBracketed(crc, ss, b + 2);
    }
  }

  /* ----- logs with nothing marked ----- */

  /** Data outside transactions, or an end marker in the last slot of an index block. */
  predicate Derails(ss: seq<Slot>, e: nat)
    requires e < |ss|
  {
    Stray(ss, e) || (Ends(ss, e) && e % KEYS_PER_BLOCK == KEYS_PER_BLOCK - 1)
  }

  /** No transaction with data commits after either. */
  ghost predicate Aligned(ss: seq<Slot>) {
    forall e, k :: 0 <= e < k < |ss| && Derails(ss, e) && Ends(ss, k) ==> OpenAt(ss[..k]) + 1 == k
  }

  ghost predicate Unmarked(ts: seq<Tag>, ss: seq<Slot>) {
    |ss| <= |ts| && forall i :: 0 <= i < |ss| && ss[i].BeginSlot? ==> !Marked(ts, i)
  }

  lemma {:induction false} PendingAll(ts: seq<Tag>, ss: seq<Slot>, g: nat)
    requires Unmarked(ts, ss) && g <= |ss|
    ensures Pending(ts, ss, g) == Committed(ss[..g])
  {
    hide OpenAt, Marked, Committed, Pending;
    if g > 0 {
      PendingAll(ts, ss, g - 1);
      CommittedStep(ss, g - 1);
      PendingStep(ts, ss, g - 1);
    } else {
      NoneYet(ts, ss);
    }
  }

  lemma NoneYet(ts: seq<Tag>, ss: seq<Slot>)
    requires |ss| <= |ts|
    ensures Pending(ts, ss, 0) == Committed(ss[..0]) == []
  {
  }

  lemma CommittedStep(ss: seq<Slot>, g: nat)
    requires g < |ss|
    ensures Committed(ss[..g + 1]) ==
            if Ends(ss, g) then Committed(ss[..g]) + [ss[OpenAt(ss[..g]) + 1..g]] else Committed(ss[..g])
  {
    hide OpenAt;
    var pre := ss[..g];
    assert ss[..g + 1][..g] == pre && ss[..g + 1][g] == ss[g];
    if Ends(ss, g) {
      assert pre[OpenAt(pre) + 1..] == ss[OpenAt(pre) + 1..g];
    }
  }

  lemma PendingStep(ts: seq<Tag>, ss: seq<Slot>, g: nat)
    requires Unmarked(ts, ss) && g < |ss|
    ensures Pending(ts, ss, g + 1) ==
            if Ends(ss, g) then Pending(ts, ss, g) + [ss[OpenAt(ss[..g]) + 1..g]] else Pending(ts, ss, g)
  {
    hide OpenAt, Marked;
    if Ends(ss, g) {
      assert ss[..g][OpenAt(ss[..g])] == ss[OpenAt(ss[..g])];
    }
  }

  /** Slot `k` ends a transaction that replay will copy, and there is data to copy. */
  predicate Carries(ts: seq<Tag>, ss: seq<Slot>, k: nat)
    requires k < |ss| <= |ts|
  {
    Ends(ss, k) && !Marked(ts, OpenAt(ss[..k])) && OpenAt(ss[..k]) + 1 < k
  }

  /** No transaction before slot `g` that is copied comes after one that causes a lag. */
  ghost predicate NoLagBefore(ts: seq<Tag>, ss: seq<Slot>, g: nat)
    requires g <= |ss| <= |ts|
  {
    forall e, k :: 0 <= e < k < g && Carries(ts, ss, k) ==> NoLag(ts, ss, e)
  }

  lemma NoLagStep(ts: seq<Tag>, ss: seq<Slot>, g: nat)
    requires 0 < g <= |ss| <= |ts|
    ensures NoLagBefore(ts, ss, g) <==>
            && NoLagBefore(ts, ss, g - 1)
            && (Carries(ts, ss, g - 1) ==> forall e :: 0 <= e < g - 1 ==> NoLag(ts, ss, e))
  {
    hide Carries, NoLag;
  }

  /** The cursor is right for every transaction that is copied if and only if no earlier transaction causes a lag. */
  lemma {:induction false} CursorExact(crc: Crc, ts: seq<Tag>, ss: seq<Slot>, g: nat)
    requires Tagged(crc, ts, ss) && g <= |ss|
    ensures CursorTrue(ts, ss, g) <==> NoLagBefore(ts, ss, g)
  {
    hide NoLag, NoLagBefore, Drift, Tagged;
    if g > 0 {
      TaggedSizes(crc, ts, ss);
      CursorExact(crc, ts, ss, g - 1);
      DriftExact(crc, ts, ss, g - 1);
      NoLagStep(ts, ss, g);
    } else {
      TaggedSizes(crc, ts, ss);
      assert NoLagBefore(ts, ss, 0) by { NothingBefore(ts, ss); }
    }
  }

  lemma NothingBefore(ts: seq<Tag>, ss: seq<Slot>)
    requires |ss| <= |ts|
    ensures NoLagBefore(ts, ss, 0)
  {
  }

  lemma AlignedExact(crc: Crc, ts: seq<Tag>, ss: seq<Slot>)
    requires Tagged(crc, ts, ss) && Unmarked(ts, ss)
    ensures CursorTrue(ts, ss, |ss|) <==> Aligned(ss)
  {
    hide OpenAt, Drift, Tagged, CursorTrue;
    CursorExact(crc, ts, ss, |ss|);
    forall e | 0 <= e < |ss|
      ensures NoLag(ts, ss, e) <==> !Derails(ss, e)
      ensures Carries(ts, ss, e) <==> Ends(ss, e) && OpenAt(ss[..e]) + 1 < e
    {
      if Ends(ss, e) {
        assert ss[..e][OpenAt(ss[..e])] == ss[OpenAt(ss[..e])];
      }
    }
    hide NoLag, Carries, Ends, Derails;
    if Aligned(ss) {
      forall e, k | 0 <= e < k < |ss| && Carries(ts, ss, k)
        ensures NoLag(ts, ss, e)
      {
        assert Ends(ss, k) && OpenAt(ss[..k]) + 1 != k;
      }
    } else {
      var e, k :| 0 <= e < k < |ss| && Derails(ss, e) && Ends(ss, k) && OpenAt(ss[..k]) + 1 != k;
      assert !NoLag(ts, ss, e) && Carries(ts, ss, k);
    }
  }

  /**
   What replay does on any finished log, marked or not: it copies every slot from the place it was logged exactly when
   nothing that makes the cursor lag comes before a transaction that is copied; the device is then the in-order
   application of the transactions not marked. The counter it leaves is 0 exactly when the log ends outside a
   transaction.
   */
  lemma ReplayExact(crc: Crc, f: File, ts: seq<Tag>, ss: seq<Slot>, dev: File)
    requires LogImage(crc, f, ts, ss) && |ss| <= |ts|
    ensures var r := ReplayScan(crc, f, dev);
      && (r.copies == Copies(ts, ss, |ss|, false) <==> NoLagBefore(ts, ss, |ss|))
      && (NoLagBefore(ts, ss, |ss|) ==> r.dev == ApplyTxns(dev, Pending(ts, ss, |ss|)))
      && r.mismatches == Mismatches(crc, ts, ss, |ss|)
      && (r.txnId == 0 <==> OpenAt(ss) < 0)
  {
    hide OpenAt, Copies, CursorTrue, NoLagBefore, Pending, Mismatches, FilesAt, ReplayScan, Holds, ApplyTxns, Ends;
    ReplayInvariant(crc, f, ts, ss, dev);
    assert ss[..|ss|] == ss;
    CopiesExact(ts, ss, |ss|);
    CursorExact(crc, ts, ss, |ss|);
    if OpenAt(ss) >= 0 {
      NextPrefix(crc, ts, ss, OpenAt(ss));
    }
  }

  /**
   Replay refines the fold. On a finished log with nothing marked, replay copies every slot from the place it
   was logged exactly when the log is aligned; the device is then the in-order application of the committed
   transactions, an unfinished one at the end having no effect. A checksum mismatch is reported exactly if some end
   marker does not hold the checksum of its transaction.
   */
  lemma ReplayRefinesFold(crc: Crc, f: File, ts: seq<Tag>, ss: seq<Slot>, dev: File)
    requires LogImage(crc, f, ts, ss) && Unmarked(ts, ss)
    ensures var r := ReplayScan(crc, f, dev);
      && (r.copies == Copies(ts, ss, |ss|, false) <==> Aligned(ss))
      && (Aligned(ss) ==> r.dev == ApplyTxns(dev, Committed(ss)))
      && (r.mismatches == 0 <==> Checksummed(crc, ss))
      && (r.txnId == 0 <==> OpenAt(ss) < 0)
  {
    hide OpenAt, Copies, CursorTrue, NoLagBefore, Pending, Mismatches, ReplayScan, LogImage, ApplyTxns, Committed,
         Aligned, Tagged;
    assert ss[..|ss|] == ss;
    ImageTagged(crc, f, ts, ss);
    ReplayExact(crc, f, ts, ss, dev);
    CursorExact(crc, ts, ss, |ss|);
    AlignedExact(crc, ts, ss);
    PendingAll(ts, ss, |ss|);
    MismatchesExact(crc, ts, ss, |ss|);
  }

  /** With nothing marked, no mismatch means that every end marker holds the checksum of its transaction. */
  lemma {:induction false} MismatchesExact(crc: Crc, ts: seq<Tag>, ss: seq<Slot>, g: nat)
    requires Tagged(crc, ts, ss) && Unmarked(ts, ss) && g <= |ss|
    ensures Mismatches(crc, ts, ss, g) == 0 <==> Checksummed(crc, ss[..g])
  {
    hide Marked, OpenAt, TxnCsum, Tagged, Mismatches, Checksummed, Ends;
    if g == 0 {
      NoMismatch(crc, ts, ss);
    } else {
      MismatchesExact(crc, ts, ss, g - 1);
      UnfoldMismatches(crc, ts, ss, g - 1);
      EndsUnmarked(crc, ts, ss, g - 1);
      ChecksummedStep(crc, ss, g - 1);
    }
  }

  lemma NoMismatch(crc: Crc, ts: seq<Tag>, ss: seq<Slot>)
    requires |ss| <= |ts|
    ensures Mismatches(crc, ts, ss, 0) == 0 && Checksummed(crc, ss[..0])
  {
  }

  lemma EndsUnmarked(crc: Crc, ts: seq<Tag>, ss: seq<Slot>, g: nat)
    requires Tagged(crc, ts, ss) && Unmarked(ts, ss) && g < |ss|
    ensures if ss[g].EndSlot? then Ends(ss, g) && !Marked(ts, OpenAt(ss[..g])) else !Ends(ss, g)
  {
    hide Marked, OpenAt, Tagged, Chain;
    NextPrefix(crc, ts, ss, g);
    if ss[g].EndSlot? {
      assert ss[..g][OpenAt(ss[..g])] == ss[OpenAt(ss[..g])];
    }
  }

  lemma ChecksummedStep(crc: Crc, ss: seq<Slot>, g: nat)
    requires g < |ss|
    ensures Checksummed(crc, ss[..g + 1]) <==>
            Checksummed(crc, ss[..g]) && (ss[g].EndSlot? ==> ss[g].csum == TxnCsum(crc, ss, g))
  {
    assert ss[..g + 1][..g] == ss[..g];
  }

  /* ----- running replay again ----- */

  function Flatten(txns: seq<seq<Slot>>): seq<Slot> {
    if txns == [] then [] else Flatten(txns[..|txns| - 1]) + txns[|txns| - 1]
  }

  lemma {:induction false} ApplySlotsConcat(dev: File, a: seq<Slot>, b: seq<Slot>)
    ensures ApplySlots(dev, a + b) == ApplySlots(ApplySlots(dev, a), b)
  {
    if b == [] {
      assert a + b == a;
    } else {
      assert (a + b)[..|a + b| - 1] == a + b[..|b| - 1];
      ApplySlotsConcat(dev, a, b[..|b| - 1]);
    }
  }

  lemma {:induction false} ApplyFlat(dev: File, txns: seq<seq<Slot>>)
    ensures ApplyTxns(dev, txns) == ApplySlots(dev, Flatten(txns))
  {
    if txns == [] {
    } else {
      ApplyFlat(dev, txns[..|txns| - 1]);
      ApplySlotsConcat(dev, Flatten(txns[..|txns| - 1]), txns[|txns| - 1]);
    }
  }

  lemma {:induction false} ApplyTxnsConcat(dev: File, a: seq<seq<Slot>>, b: seq<seq<Slot>>)
    ensures ApplyTxns(dev, a + b) == ApplyTxns(ApplyTxns(dev, a), b)
  {
    if b == [] {
      assert a + b == a;
    } else {
      assert (a + b)[..|a + b| - 1] == a + b[..|b| - 1];
      ApplyTxnsConcat(dev, a, b[..|b| - 1]);
    }
  }

  /** Writes overlay the device with what they leave on an empty one. */
  lemma {:induction false} ApplyIsOverlay(dev: File, ws: seq<Slot>)
    ensures ApplySlots(dev, ws) == dev + ApplySlots(map[], ws)
  {
    if ws == [] {
    } else {
      ApplyIsOverlay(dev, ws[..|ws| - 1]);
    }
  }

  lemma {:induction false} PrefixWritesFewer(ws: seq<Slot>, k: nat)
    requires k <= |ws|
    ensures ApplySlots(map[], ws[..k]).Keys <= ApplySlots(map[], ws).Keys
  {
    if k < |ws| {
      assert ws[..|ws| - 1][..k] == ws[..k];
      PrefixWritesFewer(ws[..|ws| - 1], k);
    } else {
      assert ws[..k] == ws;
    }
  }

  /** Repeating all writes absorbs any prefix of them already made. */
  lemma Absorb(dev: File, ws: seq<Slot>, k: nat)
    requires k <= |ws|
    ensures ApplySlots(ApplySlots(dev, ws[..k]), ws) == ApplySlots(dev, ws)
  {
    ApplyIsOverlay(dev, ws[..k]);
    ApplyIsOverlay(ApplySlots(dev, ws[..k]), ws);
    ApplyIsOverlay(dev, ws);
    PrefixWritesFewer(ws, k);
  }

  /** A replay interrupted before it marked anything: replaying again gives the device of one clean replay. */
  lemma ReplayAgain(crc: Crc, f: File, ts: seq<Tag>, ss: seq<Slot>, dev: File, k: nat)
    requires LogImage(crc, f, ts, ss) && Unmarked(ts, ss) && Aligned(ss)
    requires k <= |Flatten(Committed(ss))|
    ensures ReplayScan(crc, f, ApplySlots(dev, Flatten(Committed(ss))[..k])).dev == ReplayScan(crc, f, dev).dev
  {
    hide ReplayScan, LogImage, Unmarked, Aligned, Committed, Flatten, ApplySlots, ApplyTxns;
    var txns := Committed(ss);
    var part := ApplySlots(dev, Flatten(txns)[..k]);
    ReplayRefinesFold(crc, f, ts, ss, dev);
    ReplayRefinesFold(crc, f, ts, ss, part);
    ApplyFlat(dev, txns);
    ApplyFlat(part, txns);
    Absorb(dev, Flatten(txns), k);
  }

  /* ----- replaying a log that is partly or wholly marked ----- */

  lemma {:induction false} MarksStay(ts: seq<Tag>, ss: seq<Slot>, c: nat, e: nat)
    requires e < c <= |ss| <= |ts| && Ends(ss, e)
    ensures Marked(Marks(ts, ss, c), OpenAt(ss[..e]))
  {
    hide OpenAt;
    if e == c - 1 {
    } else {
      MarksStay(ts, ss, c - 1, e);
    }
  }

  /** A transaction that has not ended before slot `c` is marked in `Marks(ts, ss, c)` only if it was before. */
  lemma {:induction false} MarksSpare(ts: seq<Tag>, ss: seq<Slot>, c: nat, k: nat)
    requires c <= k < |ss| <= |ts| && Ends(ss, k)
    ensures Marks(ts, ss, c)[OpenAt(ss[..k])] == ts[OpenAt(ss[..k])]
  {
    hide OpenAt;
    if c == 0 {
    } else {
      MarksSpare(ts, ss, c - 1, k);
      if Ends(ss, c - 1) {
        var b := OpenAt(ss[..k]);
        OpenSlotsAreData(ss[..k]);
        assert ss[..k][c - 1] == ss[c - 1];
        assert c - 1 <= b;
      }
    }
  }

  lemma {:induction false} NothingPending(ts: seq<Tag>, ss: seq<Slot>, c: nat, g: nat)
    requires g <= c <= |ss| <= |ts|
    ensures Pending(Marks(ts, ss, c), ss, g) == []
  {
    hide OpenAt, Marks;
    if g == 0 {
    } else {
      NothingPending(ts, ss, c, g - 1);
      if Ends(ss, g - 1) {
        MarksStay(ts, ss, c, g - 1);
      }
    }
  }

  /** The transactions of a log are those marked at slot `c` followed by those still pending there. */
  lemma {:induction false} PendingSplit(ts: seq<Tag>, ss: seq<Slot>, c: nat, g: nat)
    requires c <= g <= |ss| <= |ts|
    ensures Pending(ts, ss, g) == Pending(ts, ss, c) + Pending(Marks(ts, ss, c), ss, g)
    decreases g
  {
    hide OpenAt, Marks;
    if c == g {
      NothingPending(ts, ss, c, c);
    } else {
      PendingSplit(ts, ss, c, g - 1);
      if Ends(ss, g - 1) {
        MarksSpare(ts, ss, c, g - 1);
      }
    }
  }

  lemma MarksTagged(crc: Crc, ts: seq<Tag>, ss: seq<Slot>, c: nat)
    requires Tagged(crc, ts, ss) && c <= |ss|
    ensures Tagged(crc, Marks(ts, ss, c), ss)
  {
    hide Marks, WellBracketed;
    var us := Marks(ts, ss, c);
    forall i | 0 <= i < |ss|
      ensures us[i] == TagOf(crc, ss[i]) || (ss[i].BeginSlot? && us[i] == Tag(TXN_REPLAYED_CNST, 0, ss[i].id))
    {
    }
  }

  lemma HoldsMarked(f: File, ts: seq<Tag>, us: seq<Tag>, ss: seq<Slot>)
    requires Holds(f, ts, us, ss) && SameSizes(ts, us, |ts|)
    ensures Holds(f, us, us, ss)
  {
    forall n | 0 <= n <= |ts|
      ensures SizeUpTo(ts, n) == SizeUpTo(us, n)
    {
      SizesAgree(ts, us, n);
    }
    forall b | 0 <= b < |ts| / KEYS_PER_BLOCK
      ensures BlockPos(us, b) == BlockPos(ts, b)
    {
    }
    forall i | 0 <= i < |ss|
      ensures Pos(us, i) == Pos(ts, i)
    {
    }
  }

  /** After a replay the log is an image with every committed transaction marked. */
  lemma ReplayMarks(crc: Crc, f: File, ts: seq<Tag>, ss: seq<Slot>, dev: File)
    requires LogImage(crc, f, ts, ss)
    ensures LogImage(crc, ReplayScan(crc, f, dev).log, Marks(ts, ss, |ss|), ss)
  {
    hide ReplayScan, Holds, Inv, LogImage, Marks;
    ReplayInvariant(crc, f, ts, ss, dev);
    StillAnImage(crc, f, ts, ss, dev, ReplayScan(crc, f, dev), |ss|, |ts| / KEYS_PER_BLOCK);
  }

  /** Replaying a log whose transactions are all marked changes neither the device nor the log. */
  lemma MarkedReplayIsIdle(crc: Crc, f: File, ts: seq<Tag>, ss: seq<Slot>, dev: File)
    requires LogImage(crc, f, ts, ss) && Pending(ts, ss, |ss|) == []
    ensures ReplayScan(crc, f, dev).dev == dev && ReplayScan(crc, f, dev).log == f
  {
    hide ReplayScan, Holds, FilesAt, ScannerAt, Copies, Mismatches, Replayable;
    ReplayInvariant(crc, f, ts, ss, dev);
    TaggedSizes(crc, ts, ss);
    IdleCursor(ts, ss, |ss|);
  }

  lemma {:induction false} IdleCursor(ts: seq<Tag>, ss: seq<Slot>, g: nat)
    requires g <= |ss| <= |ts| && Pending(ts, ss, g) == []
    ensures CursorTrue(ts, ss, g)
  {
    hide Drift, OpenAt;
    if g == 0 {
    } else {
      IdleCursor(ts, ss, g - 1);
    }
  }

  /** A second replay after a complete one does nothing. */
  lemma SecondReplayIsIdle(crc: Crc, f: File, ts: seq<Tag>, ss: seq<Slot>, dev: File, dev': File)
    requires LogImage(crc, f, ts, ss)
    ensures var log := ReplayScan(crc, f, dev).log;
      ReplayScan(crc, log, dev').dev == dev' && ReplayScan(crc, log, dev').log == log
  {
    hide ReplayScan, Holds, Replayable, Marks, Pending;
    TaggedSizes(crc, ts, ss);
    ReplayMarks(crc, f, ts, ss, dev);
    NothingPending(ts, ss, |ss|, |ss|);
    MarkedReplayIsIdle(crc, ReplayScan(crc, f, dev).log, Marks(ts, ss, |ss|), ss, dev');
  }

  lemma StillAnImage(crc: Crc, f: File, ts: seq<Tag>, ss: seq<Slot>, dev: File, st: Scan, c: nat, n: nat)
    requires LogImage(crc, f, ts, ss) && c <= |ss| && Inv(crc, f, ts, ss, dev, st, c, n)
    ensures LogImage(crc, st.log, Marks(ts, ss, c), ss)
  {
    hide Holds, Tagged, HeaderCrc, HeaderOf, ScannerAt, Marks, Copies, Mismatches;
    TaggedSizes(crc, ts, ss);
    MarksTagged(crc, ts, ss, c);
    HoldsMarked(st.log, ts, Marks(ts, ss, c), ss);
  }

  /**
   A replay stopped after any slot of any index block: the log is an image with exactly the transactions finished
   so far marked, and the device holds exactly these, if the cursor was right so far.
   */
  lemma InterruptedReplay(crc: Crc, f: File, ts: seq<Tag>, ss: seq<Slot>, dev: File, b: nat, j: nat)
    requires LogImage(crc, f, ts, ss) && KEYS_PER_BLOCK * b < |ts| && j <= KEYS_PER_BLOCK
    ensures var st, c := ScanTo(crc, f, dev, b, j), Min(KEYS_PER_BLOCK * b + j, |ss|);
      && LogImage(crc, st.log, Marks(ts, ss, c), ss)
      && (NoLagBefore(ts, ss, c) ==> st.dev == ApplyTxns(dev, Pending(ts, ss, c)))
  {
    hide ScanTo, Marks, LogImage, ScannerAt, FilesAt, Copies, Mismatches, NoLagBefore;
    var st, c := ScanTo(crc, f, dev, b, j), Min(KEYS_PER_BLOCK * b + j, |ss|);
    ImageTagged(crc, f, ts, ss);
    ReplayReaches(crc, f, ts, ss, dev, b, j);
    StillAnImage(crc, f, ts, ss, dev, st, c, b + 1);
    CursorExact(crc, ts, ss, c);
  }

  lemma ImageTagged(crc: Crc, f: File, ts: seq<Tag>, ss: seq<Slot>)
    requires LogImage(crc, f, ts, ss)
    ensures Tagged(crc, ts, ss) && |ss| <= |ts|
  {
  }

  /** Replaying a partly marked log over a device with `k` of the remaining writes made. */
  lemma FinishesTheJob(crc: Crc, f: File, f': File, ts: seq<Tag>, ss: seq<Slot>, dev: File, c: nat, k: nat)
    requires LogImage(crc, f, ts, ss) && CursorTrue(ts, ss, |ss|)
    requires c <= |ss| && LogImage(crc, f', Marks(ts, ss, c), ss) && CursorTrue(Marks(ts, ss, c), ss, |ss|)
    requires k <= |Flatten(Pending(Marks(ts, ss, c), ss, |ss|))|
    ensures var rest := Flatten(Pending(Marks(ts, ss, c), ss, |ss|));
      ReplayScan(crc, f', ApplySlots(ApplyTxns(dev, Pending(ts, ss, c)), rest[..k])).dev == ReplayScan(crc, f, dev).dev
  {
    hide ReplayScan, Holds, FilesAt, ScannerAt, Copies, Mismatches, Replayable, Marks, Pending, CursorTrue, Flatten,
         ApplySlots, ApplyTxns, Tagged;
    TaggedSizes(crc, ts, ss);
    var us := Marks(ts, ss, c);
    var done, rest := Pending(ts, ss, c), Pending(us, ss, |ss|);
    var base := ApplyTxns(dev, done);
    var part := ApplySlots(base, Flatten(rest)[..k]);
    ReplayInvariant(crc, f, ts, ss, dev);
    ReplayInvariant(crc, f', us, ss, part);
    PendingSplit(ts, ss, c, |ss|);
    ApplyTxnsConcat(dev, done, rest);
    ApplyFlat(base, rest);
    ApplyFlat(part, rest);
    Absorb(base, Flatten(rest), k);
  }

  /** A log and the log with its first transactions marked both replay with the cursor right. */
  ghost predicate Resumable(ts: seq<Tag>, ss: seq<Slot>, c: nat)
    requires c <= |ss| <= |ts|
  {
    NoLagBefore(ts, ss, |ss|) && NoLagBefore(Marks(ts, ss, c), ss, |ss|)
  }

  lemma {:induction false} NoLagEarlier(ts: seq<Tag>, ss: seq<Slot>, c: nat)
    requires c <= |ss| <= |ts| && NoLagBefore(ts, ss, |ss|)
    ensures NoLagBefore(ts, ss, c)
  {
    hide NoLag, Carries;
  }

  /** No transaction that takes room in the log ends before slot `c` if one with data ends from there on. */
  ghost predicate CleanCut(ss: seq<Slot>, c: nat) {
    forall e, k :: 0 <= e < c <= k < |ss| && Ends(ss, e) && Ends(ss, k) && OpenAt(ss[..k]) + 1 < k ==>
                     OpenAt(ss[..e]) + 1 == e && OpenAt(ss[..e]) % KEYS_PER_BLOCK != KEYS_PER_BLOCK - 1
  }

  /**
   For an aligned log with nothing marked before, that is exactly when a replay stopped at slot `c` can be resumed.
   */
  lemma CleanCutExact(crc: Crc, ts: seq<Tag>, ss: seq<Slot>, c: nat)
    requires Tagged(crc, ts, ss) && Unmarked(ts, ss) && Aligned(ss) && c <= |ss|
    ensures Resumable(ts, ss, c) <==> CleanCut(ss, c)
  {
    hide OpenAt, Drift, Tagged, CursorTrue, Marks, Derails;
    var us := Marks(ts, ss, c);
    AlignedExact(crc, ts, ss);
    CursorExact(crc, ts, ss, |ss|);
    forall e | 0 <= e < |ss|
      ensures Carries(us, ss, e) <==> Ends(ss, e) && c <= e && OpenAt(ss[..e]) + 1 < e
      ensures !Derails(ss, e) ==>
        (NoLag(us, ss, e) <==> (Ends(ss, e) && e < c ==>
           OpenAt(ss[..e]) + 1 == e && OpenAt(ss[..e]) % KEYS_PER_BLOCK != KEYS_PER_BLOCK - 1))
    {
      MarkedBelow(ts, ss, c, e);
    }
    hide NoLag, Carries, Ends;
    if CleanCut(ss, c) {
      forall e, k | 0 <= e < k < |ss| && Carries(us, ss, k)
        ensures NoLag(us, ss, e)
      {
        assert Ends(ss, k) && OpenAt(ss[..k]) + 1 < k;
        assert !Derails(ss, e);
      }
    } else {
      var e, k :| 0 <= e < c <= k < |ss| && Ends(ss, e) && Ends(ss, k) && OpenAt(ss[..k]) + 1 < k &&
                  !(OpenAt(ss[..e]) + 1 == e && OpenAt(ss[..e]) % KEYS_PER_BLOCK != KEYS_PER_BLOCK - 1);
      assert !Derails(ss, e);
      assert !NoLag(us, ss, e) && Carries(us, ss, k);
    }
  }

  lemma MarkedBelow(ts: seq<Tag>, ss: seq<Slot>, c: nat, e: nat)
    requires Unmarked(ts, ss) && c <= |ss| && e < |ss|
    ensures var us := Marks(ts, ss, c);
      && (Ends(ss, e) ==> (Marked(us, OpenAt(ss[..e])) <==> e < c))
      && (Carries(us, ss, e) <==> Ends(ss, e) && c <= e && OpenAt(ss[..e]) + 1 < e)
      && (!Derails(ss, e) ==>
            (NoLag(us, ss, e) <==> (Ends(ss, e) && e < c ==>
               OpenAt(ss[..e]) + 1 == e && OpenAt(ss[..e]) % KEYS_PER_BLOCK != KEYS_PER_BLOCK - 1)))
  {
    hide OpenAt, Marks;
    if Ends(ss, e) {
      assert ss[..e][OpenAt(ss[..e])] == ss[OpenAt(ss[..e])];
      if e < c {
        MarksStay(ts, ss, c, e);
      } else {
        MarksSpare(ts, ss, c, e);
      }
    }
  }

  /**
   A replay stopped after any slot. Replaying what it left, log and device, ends with the device of one clean replay,
   provided no transaction that makes the cursor lag comes before one that is still to be copied.
   */
  lemma ReplayResumes(crc: Crc, f: File, ts: seq<Tag>, ss: seq<Slot>, dev: File, b: nat, j: nat)
    requires LogImage(crc, f, ts, ss) && KEYS_PER_BLOCK * b < |ts| && j <= KEYS_PER_BLOCK && |ss| <= |ts|
    requires Resumable(ts, ss, Min(KEYS_PER_BLOCK * b + j, |ss|))
    ensures var st := ScanTo(crc, f, dev, b, j); ReplayScan(crc, st.log, st.dev).dev == ReplayScan(crc, f, dev).dev
  {
    hide ScanTo, Marks, LogImage, NoLagBefore, ReplayScan, Flatten, ApplyTxns, Pending, CursorTrue, Tagged;
    var st, c := ScanTo(crc, f, dev, b, j), Min(KEYS_PER_BLOCK * b + j, |ss|);
    var us := Marks(ts, ss, c);
    InterruptedReplay(crc, f, ts, ss, dev, b, j);
    NoLagEarlier(ts, ss, c);
    ImageTagged(crc, f, ts, ss);
    ImageTagged(crc, st.log, us, ss);
    CursorExact(crc, ts, ss, |ss|);
    CursorExact(crc, us, ss, |ss|);
    FinishesTheJob(crc, f, st.log, ts, ss, dev, c, 0);
    NoSlots(st.dev, Flatten(Pending(us, ss, |ss|))[..0]);
  }

  /**
   Exactly when that works: on an aligned log with nothing marked, the replay that resumes one stopped after slot `c`
   copies every slot from where it was logged if and only if the cut is clean; the device is then that of one clean
   replay.
   */
  lemma ResumeExact(crc: Crc, f: File, ts: seq<Tag>, ss: seq<Slot>, dev: File, b: nat, j: nat)
    requires LogImage(crc, f, ts, ss) && Unmarked(ts, ss) && Aligned(ss) && KEYS_PER_BLOCK * b < |ts|
    requires j <= KEYS_PER_BLOCK
    ensures var st, c := ScanTo(crc, f, dev, b, j), Min(KEYS_PER_BLOCK * b + j, |ss|);
      var r := ReplayScan(crc, st.log, st.dev);
      && (r.copies == Copies(Marks(ts, ss, c), ss, |ss|, false) <==> CleanCut(ss, c))
      && (CleanCut(ss, c) ==> r.dev == ApplyTxns(dev, Committed(ss)))
  {
    hide ScanTo, Marks, LogImage, NoLagBefore, ReplayScan, Copies, ApplyTxns, Pending, Tagged, CleanCut, Aligned,
         Committed, CursorTrue;
    var st, c := ScanTo(crc, f, dev, b, j), Min(KEYS_PER_BLOCK * b + j, |ss|);
    ImageTagged(crc, f, ts, ss);
    InterruptedReplay(crc, f, ts, ss, dev, b, j);
    ReplayExact(crc, st.log, Marks(ts, ss, c), ss, st.dev);
    CleanCutExact(crc, ts, ss, c);
    AlignedExact(crc, ts, ss);
    CursorExact(crc, ts, ss, |ss|);
    if CleanCut(ss, c) {
      ReplayResumes(crc, f, ts, ss, dev, b, j);
      ReplayRefinesFold(crc, f, ts, ss, dev);
    }
  }

  /**
   A replay stopped in the middle of copying: the end marker in slot `j` of block `b` has been reached and the first
   `x` writes of its transaction have been made, and nothing more has been marked. Replaying what is left ends with the
   device of one clean replay, under the same condition.
   */
  lemma ReplayResumesCopying(crc: Crc, f: File, ts: seq<Tag>, ss: seq<Slot>, dev: File, b: nat, j: nat, x: nat)
    requires LogImage(crc, f, ts, ss) && j < KEYS_PER_BLOCK && KEYS_PER_BLOCK * b + j < |ss| <= |ts|
    requires var g := KEYS_PER_BLOCK * b + j;
      && Ends(ss, g) && !Marked(ts, OpenAt(ss[..g])) && OpenAt(ss[..g]) + x < g && Resumable(ts, ss, g)
    ensures var st := ScanTo(crc, f, dev, b, j);
      && st.beginAt + 1 + x <= KEYS_PER_BLOCK * b + j
      && var copied := CopySlots(st.(cursor := st.cursor + Skip(st.beginAt)), st.beginAt + 1, st.beginAt + 1 + x);
         ReplayScan(crc, st.log, copied.dev).dev == ReplayScan(crc, f, dev).dev
  {
    hide ScanTo, Marks, LogImage, NoLagBefore, ReplayScan, Flatten, ApplyTxns, ApplySlots, Pending, CursorTrue, Tagged,
         CopySlots, OpenAt, Ends, Marked, Skip, Inv, Scan.Valid;
    var st, g := ScanTo(crc, f, dev, b, j), KEYS_PER_BLOCK * b + j;
    InterruptedReplay(crc, f, ts, ss, dev, b, j);
    NoLagEarlier(ts, ss, g);
    ImageTagged(crc, f, ts, ss);
    ReplayReaches(crc, f, ts, ss, dev, b, j);
    ResumesFrom(crc, f, ts, ss, dev, st, g, b + 1, x);
  }

  lemma ResumesFrom(crc: Crc, f: File, ts: seq<Tag>, ss: seq<Slot>, dev: File, st: Scan, g: nat, n: nat, x: nat)
    requires LogImage(crc, f, ts, ss) && g < |ss| <= |ts| && g < KEYS_PER_BLOCK * n
    requires Inv(crc, f, ts, ss, dev, st, g, n)
    requires Ends(ss, g) && !Marked(ts, OpenAt(ss[..g])) && OpenAt(ss[..g]) + x < g && Resumable(ts, ss, g)
    requires LogImage(crc, st.log, Marks(ts, ss, g), ss) && st.dev == ApplyTxns(dev, Pending(ts, ss, g))
    ensures st.beginAt + 1 + x <= g <= |st.tags|
    ensures var copied := CopySlots(st.(cursor := st.cursor + Skip(st.beginAt)), st.beginAt + 1, st.beginAt + 1 + x);
      ReplayScan(crc, st.log, copied.dev).dev == ReplayScan(crc, f, dev).dev
  {
    hide Marks, LogImage, NoLagBefore, ReplayScan, Flatten, ApplyTxns, ApplySlots, Pending, CursorTrue, Tagged,
         CopySlots, OpenAt, Ends, Marked, Skip, Inv, Scan.Valid;
    var us := Marks(ts, ss, g);
    ImageTagged(crc, f, ts, ss);
    ImageTagged(crc, st.log, us, ss);
    CursorExact(crc, ts, ss, |ss|);
    CursorExact(crc, us, ss, |ss|);
    PartlyCopied(crc, f, ts, ss, dev, st, g, n, x);
    RestBegins(ts, ss, g, x);
    FinishesTheJob(crc, f, st.log, ts, ss, dev, g, x);
  }

  /** The first `x` writes of the transaction that ends at slot `g`. */
  lemma PartlyCopied(crc: Crc, f: File, ts: seq<Tag>, ss: seq<Slot>, dev: File, st: Scan, g: nat, n: nat, x: nat)
    requires Tagged(crc, ts, ss) && g < |ss| <= |ts| && g < KEYS_PER_BLOCK * n && Ends(ss, g)
    requires !Marked(ts, OpenAt(ss[..g]))
    requires Inv(crc, f, ts, ss, dev, st, g, n) && CursorTrue(ts, ss, |ss|) && OpenAt(ss[..g]) + x < g
    ensures var b := OpenAt(ss[..g]);
      && st.beginAt == b && g <= |st.tags|
      && var copied := CopySlots(st.(cursor := st.cursor + Skip(b)), b + 1, b + 1 + x);
         copied.dev == ApplySlots(st.dev, ss[b + 1..b + 1 + x])
  {
    hide Pos, CopySlots, Drift, OpenAt, Chain, TxnCopies, ApplySlots, FilesAt, Tagged, DataStored, Copies, Mismatches,
         CursorTrue, OutputAt;
    var b := OpenAt(ss[..g]);
    var st1 := st.(cursor := st.cursor + Skip(b));
    TxnReady(crc, f, ts, ss, st, g, n);
    PosStep(ts, b);
    if x == 0 {
      CopyUnfold(st1, b + 1, b + 1);
      NoSlots(st.dev, ss[b + 1..b + 1 + x]);
    } else {
      NoDriftHere(ts, ss, g);
      CopyEffect(ts, ss, st1, b + 1, b + 1 + x, 0);
    }
  }

  lemma {:induction false} NoDriftHere(ts: seq<Tag>, ss: seq<Slot>, g: nat)
    requires g < |ss| <= |ts| && CursorTrue(ts, ss, |ss|) && Ends(ss, g) && !Marked(ts, OpenAt(ss[..g]))
    requires OpenAt(ss[..g]) + 1 < g
    ensures Drift(ts, ss, g) == 0
  {
    hide Drift, OpenAt;
    CursorEarlier(ts, ss, g + 1, |ss|);
  }

  lemma {:induction false} CursorEarlier(ts: seq<Tag>, ss: seq<Slot>, g: nat, h: nat)
    requires g <= h <= |ss| <= |ts| && CursorTrue(ts, ss, h)
    ensures CursorTrue(ts, ss, g)
    decreases h
  {
    hide Drift, OpenAt;
    if g == h {
      assert CursorTrue(ts, ss, g);
    } else {
      CursorEarlier(ts, ss, g, h - 1);
    }
  }

  /** What is still to be written begins with the transaction that ends at slot `g`. */
  lemma RestBegins(ts: seq<Tag>, ss: seq<Slot>, g: nat, x: nat)
    requires g < |ss| <= |ts| && Ends(ss, g) && !Marked(ts, OpenAt(ss[..g])) && OpenAt(ss[..g]) + x < g
    ensures var b, rest := OpenAt(ss[..g]), Flatten(Pending(Marks(ts, ss, g), ss, |ss|));
      x <= |rest| && rest[..x] == ss[b + 1..b + 1 + x]
  {
    hide Marks, Pending, Flatten, OpenAt, Marked, Drift, Copies, CursorTrue;
    var b, us := OpenAt(ss[..g]), Marks(ts, ss, g);
    var txn := ss[b + 1..g];
    MarksSpare(ts, ss, g, g);
    assert !Marked(us, b) by { SameMark(ts, us, b); }
    NothingPending(ts, ss, g, g);
    Unfold(us, ss, g);
    assert Pending(us, ss, g + 1) == [txn];
    LaterPending(us, ss, g + 1, |ss|);
    var more := Pending(us, ss, |ss|);
    FlattenFirst(txn, more);
    assert txn[..x] == ss[b + 1..b + 1 + x];
  }

  lemma SameMark(ts: seq<Tag>, us: seq<Tag>, i: nat)
    requires i < |ts| == |us| && ts[i] == us[i]
    ensures Marked(ts, i) == Marked(us, i)
  {
  }

  lemma {:induction false} LaterPending(ts: seq<Tag>, ss: seq<Slot>, g: nat, h: nat)
    requires g <= h <= |ss| <= |ts|
    ensures Pending(ts, ss, g) <= Pending(ts, ss, h)
    decreases h
  {
    hide OpenAt, Marked;
    if g == h {
      assert Pending(ts, ss, g) == Pending(ts, ss, h);
    } else {
      LaterPending(ts, ss, g, h - 1);
    }
  }

  lemma {:induction false} FlattenFirst(txn: seq<Slot>, txns: seq<seq<Slot>>)
    requires [txn] <= txns
    ensures txn <= Flatten(txns)
  {
    if |txns| == 1 {
      assert txns == [txn] && Flatten([]) == [] && [txn][..0] == [];
    } else {
      FlattenFirst(txn, txns[..|txns| - 1]);
    }
  }
}
