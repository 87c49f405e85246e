/** What the checksums of a log mean, read off the bytes of the file alone. */
module RedoChecks {
  import opened Bytes
  import opened RedoFormat
  import opened RedoLayout
  import opened RedoWriter
  import opened RedoScan
  import opened RedoReplay
  import opened RedoTheorems
  import opened RedoCrash
  import opened RedoSessions

  /** Where index block `b` of a log file lies: behind the one before and the data of its slots. */
  function BlockAt(f: File, b: nat): nat {
    if b == 0 then HEADER_SIZE else NextBlockAt(f, BlockAt(f, b - 1))
  }

  /** The tags of index block `b`. */
  function TagsAt(f: File, b: nat): (ts: seq<Tag>)
    ensures |ts| == KEYS_PER_BLOCK
  {
    DecodeBlock(PRead(f, BlockAt(f, b), REDO_LOG_BLOCK_SIZE))
  }

  /** Where the data of its slot `j` lies. */
  function DataAt(f: File, b: nat, j: nat): nat
    requires j <= KEYS_PER_BLOCK
  {
    BlockAt(f, b) + REDO_LOG_BLOCK_SIZE + SizeUpTo(TagsAt(f, b), j)
  }

  /** Every slot of the first `nb` index blocks that names data holds the CRC of that data. */
  ghost predicate DataChecked(crc: Crc, f: File, nb: nat) {
    forall b, j :: 0 <= b < nb && 0 <= j < KEYS_PER_BLOCK && TagsAt(f, b)[j].size > 0 ==>
                     TagsAt(f, b)[j].crc == crc(PRead(f, DataAt(f, b, j), TagsAt(f, b)[j].size))
  }

  /** The first `nb` index blocks have the magic number and pass their own CRC. */
  ghost predicate BlocksChecked(crc: Crc, f: File, nb: nat) {
    forall b :: 0 <= b < nb ==> PassesCheck(crc, PRead(f, BlockAt(f, b), REDO_LOG_BLOCK_SIZE))
  }

  /** The file shows its index blocks where the layout has them. */
  lemma {:induction false} BlocksFound(f: File, ts: seq<Tag>, us: seq<Tag>, ss: seq<Slot>, b: nat)
    requires Holds(f, ts, us, ss) && SameSizes(ts, us, |ts|) && KEYS_PER_BLOCK * b <= |ts|
    ensures BlockAt(f, b) == BlockPos(ts, b)
    ensures KEYS_PER_BLOCK * b < |ts| ==> KEYS_PER_BLOCK * (b + 1) <= |us| && TagsAt(f, b) == BlockOf(us, b)
  {
    hide Holds, BlockPos, NextBlockAt, PRead, DecodeBlock;
    HoldsWhole(f, ts, us, ss);
    if b == 0 {
      FirstPos(ts);
    } else {
      BlocksFound(f, ts, us, ss, b - 1);
      BlockFound(ts, us, ss, f, b - 1);
    }
    if KEYS_PER_BLOCK * b < |ts| {
      BlockFound(ts, us, ss, f, b);
    }
  }

  lemma FirstPos(ts: seq<Tag>)
    ensures BlockPos(ts, 0) == HEADER_SIZE
  {
  }

  /** The tags of data slots are those of their data. */
  ghost predicate Stamps(crc: Crc, us: seq<Tag>, ss: seq<Slot>) {
    forall i :: 0 <= i < |us| && us[i].size > 0 ==>
                  i < |ss| && ss[i].DataSlot? && us[i].size == |ss[i].data| && us[i].crc == crc(ss[i].data)
  }

  lemma DataFound(crc: Crc, f: File, ts: seq<Tag>, us: seq<Tag>, ss: seq<Slot>, b: nat, j: nat)
    requires Holds(f, ts, us, ss) && SameSizes(ts, us, |ts|) && Stamps(crc, us, ss)
    requires KEYS_PER_BLOCK * b < |ts| && j < KEYS_PER_BLOCK && TagsAt(f, b)[j].size > 0
    ensures TagsAt(f, b)[j].crc == crc(PRead(f, DataAt(f, b, j), TagsAt(f, b)[j].size))
  {
    hide PRead, DecodeBlock, NextBlockAt, SizeUpTo, BlockAt, TagsAt;
    var i := KEYS_PER_BLOCK * b + j;
    HoldsWhole(f, ts, us, ss);
    BlocksFound(f, ts, us, ss, b);
    BlockSizes(ts, us, b, j);
    assert TagsAt(f, b)[j] == us[i];
    assert Pos(ts, i) == DataAt(f, b, j);
    assert PRead(f, Pos(ts, i), |ss[i].data|) == ss[i].data;
  }

  lemma HoldsChecked(crc: Crc, f: File, ts: seq<Tag>, us: seq<Tag>, ss: seq<Slot>)
    requires Holds(f, ts, us, ss) && SameSizes(ts, us, |ts|) && Stamps(crc, us, ss)
    ensures DataChecked(crc, f, |ts| / KEYS_PER_BLOCK)
  {
    hide Holds, SameSizes, Stamps, TagsAt, DataAt, PRead;
    forall b, j | 0 <= b < |ts| / KEYS_PER_BLOCK && 0 <= j < KEYS_PER_BLOCK && TagsAt(f, b)[j].size > 0
      ensures TagsAt(f, b)[j].crc == crc(PRead(f, DataAt(f, b, j), TagsAt(f, b)[j].size))
    {
      DataFound(crc, f, ts, us, ss, b, j);
    }
  }

  /** On every finished log, marked or not, each slot that names data holds the CRC of the bytes found for it. */
  lemma ImageChecked(crc: Crc, f: File, ts: seq<Tag>, ss: seq<Slot>)
    requires LogImage(crc, f, ts, ss)
    ensures DataChecked(crc, f, HeaderOf(f).numKeys + 1)
  {
    hide Holds, DataChecked, Replayable, HeaderOf, WellBracketed;
    HoldsChecked(crc, f, ts, ts, ss);
  }

  /**
   After any prefix of the writes of any session: every index block on file, and the header allows a replay of none but
   these, has its magic number, passes its own CRC, and each of its slots that names data holds the CRC of that data.
   */
  lemma CrashChecked(crc: Crc, w: Writer, f: File, ops: seq<Op>, j: nat) returns (nb: nat)
    requires Started(crc, w, f) && Runnable(crc, w, ops) && j <= |Trace(crc, w, ops)|
    ensures var f1 := Apply(f, Trace(crc, w, ops)[..j]);
      && (Replayable(crc, f1) ==> HeaderOf(f1).numKeys < nb)
      && BlocksChecked(crc, f1, nb) && DataChecked(crc, f1, nb)
    ensures j == |Trace(crc, w, ops)| && ops != [] && ops[|ops| - 1] == MarkDone(true) ==>
              nb == |Run(crc, w, ops).slots| / KEYS_PER_BLOCK + 1
  {
    hide Good, Trace, Runnable, Run, Replayable, HeaderOf, Apply, BlocksChecked, DataChecked;
    NothingIsGood(crc, f);
    var n, k, floor := SessionKeepsGood(crc, w, f, 0, -1, ops, j);
    var f1, ss := Apply(f, Trace(crc, w, ops)[..j]), Run(crc, w, ops).slots[..n];
    nb := k;
    GoodChecked(crc, f1, ss, nb, floor);
    if j == |Trace(crc, w, ops)| && ops != [] && ops[|ops| - 1] == MarkDone(true) {
      assert ss == Run(crc, w, ops).slots;
      GoodIsLoose(crc, f1, ss, nb);
    }
  }

  lemma GoodChecked(crc: Crc, f: File, ss: seq<Slot>, nb: nat, floor: int)
    requires Good(crc, f, ss, nb, floor)
    ensures Replayable(crc, f) ==> HeaderOf(f).numKeys < nb
    ensures BlocksChecked(crc, f, nb) && DataChecked(crc, f, nb)
  {
    hide Holds, Replayable, HeaderOf, DataChecked, PassesCheck, SealedBlock, PRead, BlockAt, BlockPos;
    var ts := Front(crc, ss, nb);
    HoldsChecked(crc, f, ts, ts, ss);
    forall b | 0 <= b < nb
      ensures PassesCheck(crc, PRead(f, BlockAt(f, b), REDO_LOG_BLOCK_SIZE))
    {
      BlocksFound(f, ts, ts, ss, b);
      SealedPasses(crc, BlockOf(ts, b));
    }
  }

  /* ----- the checksum of a transaction ----- */

  /** Slot `i` of a log file, counted through all its index blocks. */
  function SlotAt(f: File, i: nat): Tag {
    TagsAt(f, i / KEYS_PER_BLOCK)[i % KEYS_PER_BLOCK]
  }

  /** The exclusive or of the CRCs of slots `b..g`, a begin marker and data, on top of the constant. */
  function XorOf(crc: Crc, f: File, b: nat, g: nat): u32
    requires b < g
  {
    if g == b + 1 then Xor32(TXN_CHKSM_CNST, crc(EncodeTag(SlotAt(f, b).(offset := 0))))
    else Xor32(XorOf(crc, f, b, g - 1), crc(EncodeTag(SlotAt(f, g - 1))))
  }

  lemma {:induction false} ChainIsXor(crc: Crc, f: File, ts: seq<Tag>, ss: seq<Slot>, g: nat)
    requires LogImage(crc, f, ts, ss) && 0 < g <= |ss| && OpenAt(ss[..g]) >= 0
    ensures OpenAt(ss[..g]) < g && Chain(crc, ss[..g]) == XorOf(crc, f, OpenAt(ss[..g]), g)
  {
    hide Xor32, Replayable, HeaderOf, Holds, TagsAt, OpenAt, Chain, WellBracketed;
    NextPrefix(crc, ts, ss, g - 1);
    SlotFound(crc, f, ts, ss, g - 1);
    if ss[g - 1].DataSlot? {
      ChainIsXor(crc, f, ts, ss, g - 1);
    }
  }

  lemma SlotFound(crc: Crc, f: File, ts: seq<Tag>, ss: seq<Slot>, i: nat)
    requires LogImage(crc, f, ts, ss) && i < |ss|
    ensures |ss| <= |ts| && SlotAt(f, i) == ts[i]
  {
    hide Replayable, HeaderOf, Holds, TagsAt, WellBracketed;
    BlocksFound(f, ts, ts, ss, i / KEYS_PER_BLOCK);
  }

  /** Every end marker of a log that kept the rules holds the exclusive or over all slots of its transaction. */
  lemma TxnChecked(crc: Crc, f: File, ts: seq<Tag>, ss: seq<Slot>, e: nat)
    requires LogImage(crc, f, ts, ss) && Checksummed(crc, ss) && e < |ss| && Ends(ss, e)
    ensures var b := OpenAt(ss[..e]);
      b < e && SlotAt(f, e).offset == Xor32(XorOf(crc, f, b, e), crc(EncodeTag(SlotAt(f, e).(offset := 0))))
  {
    hide Xor32, Replayable, HeaderOf, Holds, TagsAt, OpenAt, Chain, WellBracketed, Checksummed, XorOf;
    SlotFound(crc, f, ts, ss, e);
    ChainIsXor(crc, f, ts, ss, e);
    PrefixesBracketed(crc, ss, e + 1);
    ChecksummedStep(crc, ss, e);
  }
}
