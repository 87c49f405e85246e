/** When replay tells the begin markers of a log from its end markers, for logs of any slots whatever. */
module RedoStep {
  import opened Bytes
  import opened RedoFormat
  import opened RedoLayout
  import opened RedoScan
  import opened RedoReplay
  import opened RedoCrash

  /**
   The slot, with a transaction open before it or not, reads as what it does: a marker has an id exactly if it opens or
   ends one, and data has bytes (or no bytes have no checksum).
   */
  predicate Readable(crc: Crc, open: bool, s: Slot) {
    match s
    case BeginSlot(id) => id > 0 <==> !open
    case EndSlot(id, _) => id > 0 <==> open
    case DataSlot(_, data) => data != [] || crc([]) == 0
  }

  ghost predicate AllReadable(crc: Crc, ss: seq<Slot>, n: nat)
    requires n <= |ss|
  {
    forall i :: 0 <= i < n ==> Readable(crc, OpenAt(ss[..i]) >= 0, ss[i])
  }

  /** The scanner's `txn_id` after the first `g` tags: set by one marker, cleared by the next. */
  function Toggle(ts: seq<Tag>, g: nat): u32
    requires g <= |ts|
  {
    if g == 0 then 0
    else if !IsMarker(ts[g - 1]) then Toggle(ts, g - 1)
    else if Toggle(ts, g - 1) == 0 then ts[g - 1].crc
    else 0
  }

  /** The tags agree but for their offsets: that is all that marking changes. */
  ghost predicate Alike(ts: seq<Tag>, us: seq<Tag>) {
    |us| == |ts| && forall i :: 0 <= i < |ts| ==> us[i].size == ts[i].size && us[i].crc == ts[i].crc
  }

  /** The scan has read `n` index blocks of the log with index `ts`, by now marked as in `us`. */
  ghost predicate Follows(ts: seq<Tag>, us: seq<Tag>, st: Scan, n: nat) {
    && |st.offsets| == n && |st.heads| == n && |st.tags| == KEYS_PER_BLOCK * n <= |ts|
    && (forall b :: 0 <= b < n ==> st.offsets[b] == BlockPos(ts, b))
    && Alike(ts, us) && (forall i :: 0 <= i < |st.tags| ==> st.tags[i] == us[i])
    && Holds(st.log, ts, us, [])
  }

  lemma MarkFollows(ts: seq<Tag>, us: seq<Tag>, st: Scan, n: nat) returns (vs: seq<Tag>)
    requires Follows(ts, us, st, n) && st.Valid(|st.tags|) && st.beginAt < |st.tags|
    ensures Follows(ts, vs, Mark(st), n)
  {
    hide Holds, BlockPos, Mark;
    vs := us[st.beginAt := us[st.beginAt].(offset := TXN_REPLAYED_CNST)];
    MarkEffect(ts, [], st, us, n);
    MarkKeeps(st);
  }

  lemma SlotFollows(crc: Crc, ts: seq<Tag>, us: seq<Tag>, st: Scan, g: nat, n: nat) returns (vs: seq<Tag>)
    requires Follows(ts, us, st, n) && st.Valid(g) && g < |st.tags|
    ensures Follows(ts, vs, ScanSlot(crc, st, g), n)
    ensures ScanSlot(crc, st, g).txnId ==
            if !IsMarker(ts[g]) then st.txnId else if st.txnId == 0 then ts[g].crc else 0
  {
    hide Holds, BlockPos, Mark, CopySlots, TagCrc, Xor32;
    vs := us;
    if IsMarker(st.tags[g]) && st.txnId != 0 && !st.replayed {
      var copied := CopySlots(st.(cursor := st.cursor + Skip(st.beginAt)), st.beginAt + 1, g);
      vs := MarkFollows(ts, us, copied, n);
    }
  }

  lemma {:induction false} SlotsFollow(crc: Crc, ts: seq<Tag>, us: seq<Tag>, st: Scan, lo: nat, hi: nat, n: nat)
    returns (vs: seq<Tag>)
    requires Follows(ts, us, st, n) && st.Valid(lo) && lo <= hi <= |st.tags| && st.txnId == Toggle(ts, lo)
    ensures Follows(ts, vs, ScanSlots(crc, st, lo, hi), n) && ScanSlots(crc, st, lo, hi).txnId == Toggle(ts, hi)
    decreases hi
  {
    hide Follows, ScanSlot;
    vs := us;
    TagsThere(ts, us, st, n);
    if lo == hi {
    } else {
      vs := SlotsFollow(crc, ts, us, st, lo, hi - 1, n);
      vs := SlotFollows(crc, ts, vs, ScanSlots(crc, st, lo, hi - 1), hi - 1, n);
    }
  }

  lemma TagsThere(ts: seq<Tag>, us: seq<Tag>, st: Scan, n: nat)
    requires Follows(ts, us, st, n)
    ensures |st.tags| == KEYS_PER_BLOCK * n <= |ts|
  {
  }

  lemma BlockFollows(ts: seq<Tag>, us: seq<Tag>, st: Scan, n: nat)
    requires Follows(ts, us, st, n) && KEYS_PER_BLOCK * n < |ts| && st.Valid(|st.tags|)
    ensures Follows(ts, us, ReadBlock(st, BlockPos(ts, n)), n + 1)
    ensures NextBlockAt(st.log, BlockPos(ts, n)) == BlockPos(ts, n + 1)
  {
    hide BlockPos, NextBlockAt, Holds, PRead, DecodeBlock;
    HoldsWhole(st.log, ts, us, []);
    BlockFound(ts, us, [], st.log, n);
    var read := ReadBlock(st, BlockPos(ts, n));
    forall i | 0 <= i < |read.tags|
      ensures read.tags[i] == us[i]
    {
      if i >= |st.tags| {
        assert read.tags[i] == BlockOf(us, n)[i - |st.tags|];
      }
    }
  }

  lemma {:induction false} BlocksFollow(crc: Crc, ts: seq<Tag>, us: seq<Tag>, st: Scan, n: nat, k: nat)
    returns (vs: seq<Tag>)
    requires Follows(ts, us, st, n) && KEYS_PER_BLOCK * (n + k) <= |ts| && st.Valid(|st.tags|)
    requires KEYS_PER_BLOCK * n <= |ts|
    requires |ts| % KEYS_PER_BLOCK == 0 && st.txnId == Toggle(ts, KEYS_PER_BLOCK * n)
    ensures var r := ScanBlocks(crc, st, BlockPos(ts, n), k);
      && Follows(ts, vs, r, n + k) && r.txnId == Toggle(ts, KEYS_PER_BLOCK * (n + k))
      && ScanPos(crc, st, BlockPos(ts, n), k) == BlockPos(ts, n + k)
    decreases k
  {
    hide Follows, BlockPos, NextBlockAt, ScanSlots, ReadBlock, Toggle;
    vs := us;
    if k == 0 {
      assert ScanBlocks(crc, st, BlockPos(ts, n), k) == st;
    } else {
      TagsThere(ts, us, st, n);
      BlockFollows(ts, us, st, n);
      var read := ReadBlock(st, BlockPos(ts, n));
      assert read.txnId == st.txnId by { ReadKeepsId(st, BlockPos(ts, n)); }
      vs := SlotsFollow(crc, ts, us, read, KEYS_PER_BLOCK * n, KEYS_PER_BLOCK * (n + 1), n + 1);
      vs := BlocksFollow(crc, ts, vs, ScanBlock(crc, st, BlockPos(ts, n)), n + 1, k - 1);
    }
  }

  lemma ReadKeepsId(st: Scan, at: nat)
    requires st.Valid(|st.tags|)
    ensures ReadBlock(st, at).txnId == st.txnId
  {
  }

  /** A finished log of the slots `ss`, in or out of order: what a session leaves behind `redo_mark_done(1)`. */
  ghost predicate LooseImage(crc: Crc, f: File, ss: seq<Slot>, nb: nat) {
    && HeaderOf(f).keyOffset == HEADER_SIZE && nb == HeaderOf(f).numKeys + 1 <= |ss| / KEYS_PER_BLOCK + 1
    && |ss| <= KEYS_PER_BLOCK * nb && Holds(f, Front(crc, ss, nb), Front(crc, ss, nb), ss)
  }

  /** On any such log the scanner's `txn_id` toggles with the tags that look like markers. */
  lemma ScannerToggles(crc: Crc, f: File, ss: seq<Slot>, nb: nat, dev: File, b: nat, j: nat)
    requires LooseImage(crc, f, ss, nb) && b < nb && j <= KEYS_PER_BLOCK
    ensures ScanTo(crc, f, dev, b, j).txnId == Toggle(Front(crc, ss, nb), KEYS_PER_BLOCK * b + j)
  {
    hide HeaderOf, Holds, ScanBlocks, ScanSlots, BlockPos, ScanPos, ReadBlock, Toggle;
    var ts, start := Front(crc, ss, nb), StartScan(f, dev);
    StartFollows(f, ts, ss, dev);
    var us := BlocksFollow(crc, ts, ts, start, 0, b);
    ScanBlocksSnoc(crc, start, HEADER_SIZE, b);
    var st := ScanBlocks(crc, start, HEADER_SIZE, b);
    BlockFollows(ts, us, st, b);
    ReadKeepsId(st, BlockPos(ts, b));
    us := SlotsFollow(crc, ts, us, ReadBlock(st, BlockPos(ts, b)), KEYS_PER_BLOCK * b, KEYS_PER_BLOCK * b + j, b + 1);
  }

  lemma StartFollows(f: File, ts: seq<Tag>, ss: seq<Slot>, dev: File)
    requires Holds(f, ts, ts, ss)
    ensures Follows(ts, ts, StartScan(f, dev), 0) && BlockPos(ts, 0) == HEADER_SIZE && Toggle(ts, 0) == 0
  {
    hide PRead, DecodeBlock;
  }

  /** A readable slot reads as a marker exactly when it opens or ends a transaction. */
  lemma ReadsAsMarker(crc: Crc, open: bool, s: Slot)
    ensures Readable(crc, open, s) <==>
            (IsMarker(TagOf(crc, s)) <==> if open then s.EndSlot? else s.BeginSlot?)
  {
  }

  /** After `g` slots the scanner is inside a transaction exactly when the log is. */
  predicate InStep(ts: seq<Tag>, ss: seq<Slot>, g: nat)
    requires g <= |ss| <= |ts|
  {
    Toggle(ts, g) == 0 <==> OpenAt(ss[..g]) < 0
  }

  /** A scanner in step before a slot is in step behind it exactly when the slot is readable. */
  lemma StepsAlong(crc: Crc, ts: seq<Tag>, ss: seq<Slot>, g: nat)
    requires g < |ss| <= |ts| && ts[g] == TagOf(crc, ss[g]) && InStep(ts, ss, g)
    ensures InStep(ts, ss, g + 1) <==> Readable(crc, OpenAt(ss[..g]) >= 0, ss[g])
  {
    hide IsMarker, Readable, TagOf, OpenAt;
    OpenStep(ss, g);
    ReadsAsMarker(crc, OpenAt(ss[..g]) >= 0, ss[g]);
    MarkerCrc(ts[g]);
  }

  lemma NotStarted(ts: seq<Tag>, ss: seq<Slot>)
    requires |ss| <= |ts|
    ensures InStep(ts, ss, 0)
  {
  }

  /** The scanner is in step up to slot `n` exactly when the slots before are readable. */
  lemma {:induction false} InStepUpTo(crc: Crc, ts: seq<Tag>, ss: seq<Slot>, n: nat)
    requires n <= |ss| <= |ts| && forall i :: 0 <= i < |ss| ==> ts[i] == TagOf(crc, ss[i])
    ensures (forall g :: 0 <= g <= n ==> InStep(ts, ss, g)) <==> AllReadable(crc, ss, n)
  {
    hide InStep, Readable, TagOf, OpenAt;
    if n == 0 {
      NotStarted(ts, ss);
    } else {
      InStepUpTo(crc, ts, ss, n - 1);
      if InStep(ts, ss, n - 1) {
        StepsAlong(crc, ts, ss, n - 1);
      }
    }
  }

  lemma MarkerCrc(t: Tag)
    ensures IsMarker(t) ==> t.crc > 0
  {
  }

  lemma OpenStep(ss: seq<Slot>, g: nat)
    requires g < |ss|
    ensures OpenAt(ss[..g + 1]) < 0 <==> ss[g].EndSlot? || (ss[g].DataSlot? && OpenAt(ss[..g]) < 0)
  {
    assert ss[..g + 1][..g] == ss[..g];
  }

  /**
   Exactly when replay is in step: on a finished log of any slots the scanner is inside a transaction after every slot
   where the log is, and outside where the log is, if and only if exactly the markers that open or end a transaction
   have a positive id and, as the checksum of no bytes is not 0, no write is empty.
   */
  lemma InStepExactly(crc: Crc, f: File, ss: seq<Slot>, nb: nat, dev: File)
    requires LooseImage(crc, f, ss, nb)
    ensures (forall b, j :: 0 <= b < nb && 0 <= j <= KEYS_PER_BLOCK && KEYS_PER_BLOCK * b + j <= |ss| ==>
               (ScanTo(crc, f, dev, b, j).txnId == 0 <==> OpenAt(ss[..KEYS_PER_BLOCK * b + j]) < 0)) <==>
            AllReadable(crc, ss, |ss|)
  {
    hide LooseImage, ScanTo, Toggle, OpenAt, AllReadable, InStep;
    ImageFits(crc, f, ss, nb);
    var ts := Front(crc, ss, nb);
    InStepUpTo(crc, ts, ss, |ss|);
    forall b, j | 0 <= b < nb && 0 <= j <= KEYS_PER_BLOCK && KEYS_PER_BLOCK * b + j <= |ss|
      ensures InStep(ts, ss, KEYS_PER_BLOCK * b + j) <==>
              (ScanTo(crc, f, dev, b, j).txnId == 0 <==> OpenAt(ss[..KEYS_PER_BLOCK * b + j]) < 0)
    {
      ScannerToggles(crc, f, ss, nb, dev, b, j);
      StepIsToggle(ts, ss, KEYS_PER_BLOCK * b + j);
    }
    if forall b, j :: 0 <= b < nb && 0 <= j <= KEYS_PER_BLOCK && KEYS_PER_BLOCK * b + j <= |ss| ==>
         (ScanTo(crc, f, dev, b, j).txnId == 0 <==> OpenAt(ss[..KEYS_PER_BLOCK * b + j]) < 0) {
      forall g | 0 <= g <= |ss|
        ensures InStep(ts, ss, g)
      {
        var b, j := WhichBlock(g, nb);
        assert ScanTo(crc, f, dev, b, j).txnId == 0 <==> OpenAt(ss[..KEYS_PER_BLOCK * b + j]) < 0;
      }
    }
  }

  lemma StepIsToggle(ts: seq<Tag>, ss: seq<Slot>, g: nat)
    requires g <= |ss| <= |ts|
    ensures InStep(ts, ss, g) <==> (Toggle(ts, g) == 0 <==> OpenAt(ss[..g]) < 0)
  {
  }

  lemma WhichBlock(g: nat, nb: nat) returns (b: nat, j: nat)
    requires g <= KEYS_PER_BLOCK * nb && nb > 0
    ensures b < nb && j <= KEYS_PER_BLOCK && KEYS_PER_BLOCK * b + j == g
  {
    b, j := g / KEYS_PER_BLOCK, g % KEYS_PER_BLOCK;
    if b == nb {
      b, j := nb - 1, KEYS_PER_BLOCK;
    }
  }

  lemma ImageFits(crc: Crc, f: File, ss: seq<Slot>, nb: nat)
    requires LooseImage(crc, f, ss, nb)
    ensures 0 < nb <= |ss| / KEYS_PER_BLOCK + 1 && |ss| <= KEYS_PER_BLOCK * nb
  {
  }

  /* ----- single slots ----- */

  lemma ScanToNext(crc: Crc, f: File, dev: File, b: nat, j: nat)
    requires j < KEYS_PER_BLOCK
    ensures ScanTo(crc, f, dev, b, j + 1) == ScanSlot(crc, ScanTo(crc, f, dev, b, j), KEYS_PER_BLOCK * b + j)
  {
    hide ScanSlot, ReadBlock, ScanBlocks, ScanPos;
  }

  lemma BeginScanned(crc: Crc, st: Scan, g: nat)
    requires st.Valid(g) && g < |st.tags| && IsMarker(st.tags[g]) && st.txnId == 0
    ensures var r := ScanSlot(crc, st, g);
      && r.dev == st.dev && r.log == st.log && r.cursor == st.cursor && r.txnId != 0 && r.tags == st.tags
      && r.replayed == (st.tags[g].offset == TXN_REPLAYED_CNST) && (!r.replayed ==> r.beginAt == g)
  {
  }

  lemma DataScanned(crc: Crc, st: Scan, g: nat)
    requires st.Valid(g) && g < |st.tags| && !IsMarker(st.tags[g])
    ensures ScanSlot(crc, st, g) == st.(csum := ScanSlot(crc, st, g).csum)
  {
    hide FinishTxn, Xor32, TagCrc;
  }

  /** An end marker behind a single data slot: the data is copied from wherever the cursor is. */
  lemma CopiesOne(crc: Crc, st: Scan, g: nat)
    requires st.Valid(g) && 2 <= g < |st.tags| && IsMarker(st.tags[g])
    requires st.txnId != 0 && !st.replayed && st.beginAt == g - 2 && Skip(g - 2) == 0
    ensures var r := ScanSlot(crc, st, g);
      && r.dev == PWrite(st.dev, st.tags[g - 1].offset, PRead(st.log, st.cursor, st.tags[g - 1].size))
      && r.txnId == 0 && forall i :: g < i < |st.tags| ==> r.tags[i] == st.tags[i]
  {
    hide PWrite, PRead, EncodeBlock, Xor32, TagCrc;
    assert CopySlots(st, g - 1, g) == CopySlot(CopySlots(st, g - 1, g - 1), g - 1);
  }

  /** An end marker right after its begin marker copies nothing. */
  lemma CopiesNone(crc: Crc, st: Scan, g: nat)
    requires st.Valid(g) && 0 < g < |st.tags| && IsMarker(st.tags[g]) && st.txnId != 0
    requires !st.replayed ==> st.beginAt == g - 1
    ensures var r := ScanSlot(crc, st, g);
      r.dev == st.dev && r.txnId == 0 && forall i :: g < i < |st.tags| ==> r.tags[i] == st.tags[i]
  {
    hide PWrite, EncodeBlock, Xor32, TagCrc;
  }

  /** The zero slots behind the last one written change nothing. */
  lemma {:induction false} ZeroTail(crc: Crc, f: File, dev: File, b: nat, j: nat, k: nat)
    requires j <= k <= KEYS_PER_BLOCK
    requires forall i :: KEYS_PER_BLOCK * b + j <= i < KEYS_PER_BLOCK * b + k ==>
               ScanTo(crc, f, dev, b, j).tags[i] == ZERO_TAG
    ensures ScanTo(crc, f, dev, b, k) == ScanTo(crc, f, dev, b, j)
    decreases k
  {
    hide ScanTo, FinishTxn, Xor32, TagCrc;
    if j == k {
      assert ScanTo(crc, f, dev, b, k) == ScanTo(crc, f, dev, b, j);
    } else {
      ZeroTail(crc, f, dev, b, j, k - 1);
      ScanToNext(crc, f, dev, b, k - 1);
    }
  }
}
