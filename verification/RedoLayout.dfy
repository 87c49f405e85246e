/**
 The redo log as a sequence of slots, and where each slot's bytes live. Index blocks of 255 slots are
 interleaved with the data of the slots they describe, so the position of slot `i` has a closed form.
 */
module RedoLayout {
  import opened Bytes
  import opened RedoFormat

  type Buffer = s: seq<byte> | |s| < 0x1_0000_0000

  /** What one index slot stands for. */
  datatype Slot =
    | BeginSlot(id: u32)
    | DataSlot(offset: u64, data: Buffer)
    | EndSlot(id: u32, csum: u32)

  function TagOf(crc: Crc, s: Slot): Tag {
    match s
    case BeginSlot(id) => Tag(0, 0, id)
    case DataSlot(offset, data) => Tag(offset, |data|, crc(data))
    case EndSlot(id, csum) => Tag(csum, 0, id)
  }

  function Tags(crc: Crc, ss: seq<Slot>): (ts: seq<Tag>)
    ensures |ts| == |ss|
    ensures forall i :: 0 <= i < |ss| ==> ts[i] == TagOf(crc, ss[i])
  {
    seq(|ss|, i requires 0 <= i < |ss| => TagOf(crc, ss[i]))
  }

  /** The slots of all index blocks in use, the current one filled up with zero tags. */
  function Padded(ts: seq<Tag>): (ps: seq<Tag>)
    ensures |ps| == KEYS_PER_BLOCK * (|ts| / KEYS_PER_BLOCK + 1)
    ensures forall i :: 0 <= i < |ps| ==> ps[i] == if i < |ts| then ts[i] else ZERO_TAG
  {
    ts + seq(KEYS_PER_BLOCK - |ts| % KEYS_PER_BLOCK, _ => ZERO_TAG)
  }

  function Index(crc: Crc, ss: seq<Slot>): (ps: seq<Tag>)
    ensures |ps| == KEYS_PER_BLOCK * (|ss| / KEYS_PER_BLOCK + 1)
    ensures forall i :: 0 <= i < |ps| ==> ps[i] == if i < |ss| then TagOf(crc, ss[i]) else ZERO_TAG
  {
    Padded(Tags(crc, ss))
  }

  function BlockOf(ts: seq<Tag>, b: nat): (block: seq<Tag>)
    requires KEYS_PER_BLOCK * (b + 1) <= |ts|
    ensures |block| == KEYS_PER_BLOCK
  {
    ts[KEYS_PER_BLOCK * b..KEYS_PER_BLOCK * (b + 1)]
  }

  /* ----- positions in the log file ----- */

  function SizeUpTo(ts: seq<Tag>, i: nat): (n: nat)
    requires i <= |ts|
  {
    if i == 0 then 0 else SizeUpTo(ts, i - 1) + ts[i - 1].size
  }

  /** Where the data of slot `i` starts: after the header, every index block so far and all earlier data. */
  function Pos(ts: seq<Tag>, i: nat): (p: nat)
    requires i <= |ts|
  {
    HEADER_SIZE + REDO_LOG_BLOCK_SIZE * (i / KEYS_PER_BLOCK + 1) + SizeUpTo(ts, i)
  }

  /** Where index block `b` starts. */
  function BlockPos(ts: seq<Tag>, b: nat): (p: nat)
    requires KEYS_PER_BLOCK * b <= |ts|
  {
    HEADER_SIZE + REDO_LOG_BLOCK_SIZE * b + SizeUpTo(ts, KEYS_PER_BLOCK * b)
  }

  ghost predicate SameSizes(ts: seq<Tag>, us: seq<Tag>, n: nat) {
    n <= |ts| && n <= |us| && forall i :: 0 <= i < n ==> ts[i].size == us[i].size
  }

  lemma {:induction false} SizesAgree(ts: seq<Tag>, us: seq<Tag>, n: nat)
    requires SameSizes(ts, us, n)
    ensures SizeUpTo(ts, n) == SizeUpTo(us, n)
  {
    if n == 0 {
    } else {
      SizesAgree(ts, us, n - 1);
    }
  }

  lemma {:induction false} SizesGrow(ts: seq<Tag>, i: nat, j: nat)
    requires i <= j <= |ts|
    ensures SizeUpTo(ts, i) <= SizeUpTo(ts, j)
    decreases j
  {
    if i == j {
    } else {
      SizesGrow(ts, i, j - 1);
    }
  }

  /** Layout: an index block and every earlier data extent are disjoint, whatever their order. */
  lemma BlockApartFromData(ts: seq<Tag>, b: nat, i: nat)
    requires KEYS_PER_BLOCK * b <= |ts| && i < |ts|
    ensures Pos(ts, i) + ts[i].size <= BlockPos(ts, b) || BlockPos(ts, b) + REDO_LOG_BLOCK_SIZE <= Pos(ts, i)
    ensures i < KEYS_PER_BLOCK * b <==> Pos(ts, i) + ts[i].size <= BlockPos(ts, b)
  {
    if i < KEYS_PER_BLOCK * b {
      SizesGrow(ts, i + 1, KEYS_PER_BLOCK * b);
    } else {
      SizesGrow(ts, KEYS_PER_BLOCK * b, i);
    }
  }

  lemma BlocksApart(ts: seq<Tag>, b: nat, c: nat)
    requires b < c && KEYS_PER_BLOCK * c <= |ts|
    ensures BlockPos(ts, b) + REDO_LOG_BLOCK_SIZE <= BlockPos(ts, c)
  {
    SizesGrow(ts, KEYS_PER_BLOCK * b, KEYS_PER_BLOCK * c);
  }

  lemma DataApart(ts: seq<Tag>, i: nat, j: nat)
    requires i < j <= |ts|
    ensures Pos(ts, i) + ts[i].size <= Pos(ts, j)
  {
    SizesGrow(ts, i + 1, j);
  }

  /** Stepping over slot `i`, and over the index block that follows the 255th slot. */
  lemma PosStep(ts: seq<Tag>, i: nat)
    requires i < |ts|
    ensures Pos(ts, i + 1)
         == Pos(ts, i) + ts[i].size + if i % KEYS_PER_BLOCK == KEYS_PER_BLOCK - 1 then REDO_LOG_BLOCK_SIZE else 0
  {
  }

  /* ----- what a log file holds ----- */

  /** The data of every data slot is on file at the slot's position. */
  ghost predicate DataStored(f: File, ts: seq<Tag>, ss: seq<Slot>) {
    && |ss| <= |ts|
    && forall i :: 0 <= i < |ss| && ss[i].DataSlot? ==> PRead(f, Pos(ts, i), |ss[i].data|) == ss[i].data
  }

  /* ----- transactions ----- */

  /** The slot at which the transaction still open after `ss` began. */
  function OpenAt(ss: seq<Slot>): (r: int)
    ensures -1 <= r < |ss|
    ensures r >= 0 ==> ss[r].BeginSlot?
  {
    if ss == [] then -1
    else match ss[|ss| - 1]
      case BeginSlot(_) => |ss| - 1
      case EndSlot(_, _) => -1
      case DataSlot(_, _) => OpenAt(ss[..|ss| - 1])
  }

  function TagCrc(crc: Crc, t: Tag): u32 { crc(EncodeTag(t)) }

  /** The checksum chain of the transaction that is open after `ss`. */
  function Chain(crc: Crc, ss: seq<Slot>): u32 {
    if ss == [] then 0
    else match ss[|ss| - 1]
      case BeginSlot(id) => Xor32(TXN_CHKSM_CNST, TagCrc(crc, Tag(0, 0, id)))
      case EndSlot(_, _) => 0
      case DataSlot(_, _) => Xor32(Chain(crc, ss[..|ss| - 1]), TagCrc(crc, TagOf(crc, ss[|ss| - 1])))
  }

  /** Begin and end markers alternate, ids are non-zero and data, inside or outside transactions, is not empty. */
  predicate WellBracketed(ss: seq<Slot>) {
    ss == [] ||
    var pre := ss[..|ss| - 1];
    && WellBracketed(pre)
    && match ss[|ss| - 1]
       case BeginSlot(id) => OpenAt(pre) < 0 && id > 0
       case DataSlot(_, data) => data != []
       case EndSlot(id, csum) => OpenAt(pre) >= 0 && id > 0
  }

  /** Every end marker holds the checksum chain of its transaction. */
  predicate Checksummed(crc: Crc, ss: seq<Slot>) {
    ss == [] ||
    var pre := ss[..|ss| - 1];
    && Checksummed(crc, pre)
    && (ss[|ss| - 1].EndSlot? ==>
          ss[|ss| - 1].csum == Xor32(Chain(crc, pre), TagCrc(crc, Tag(0, 0, ss[|ss| - 1].id))))
  }

  /** The committed transactions, each the list of its data slots, in log order. */
  function Committed(ss: seq<Slot>): (txns: seq<seq<Slot>>) {
    if ss == [] then []
    else
      var pre := ss[..|ss| - 1];
      if ss[|ss| - 1].EndSlot? && OpenAt(pre) >= 0
      then Committed(pre) + [pre[OpenAt(pre) + 1..]]
      else Committed(pre)
  }

  function ApplySlot(dev: File, s: Slot): File {
    if s.DataSlot? then PWrite(dev, s.offset, s.data) else dev
  }

  function ApplySlots(dev: File, ss: seq<Slot>): File {
    if ss == [] then dev else ApplySlot(ApplySlots(dev, ss[..|ss| - 1]), ss[|ss| - 1])
  }

  /** The device after applying whole transactions in order. */
  function ApplyTxns(dev: File, txns: seq<seq<Slot>>): File {
    if txns == [] then dev else ApplySlots(ApplyTxns(dev, txns[..|txns| - 1]), txns[|txns| - 1])
  }

  lemma OpenSlotsAreData(ss: seq<Slot>)
    requires OpenAt(ss) >= 0
    ensures forall i :: OpenAt(ss) < i < |ss| ==> ss[i].DataSlot?
  {
    if ss[|ss| - 1].BeginSlot? {
    } else {
      OpenSlotsAreData(ss[..|ss| - 1]);
    }
  }

  /** A longer log has at least the transactions of a shorter one, in the same order. */
  lemma {:induction false} CommittedGrows(ss: seq<Slot>, n: nat)
    requires n <= |ss|
    ensures Committed(ss[..n]) <= Committed(ss)
  {
    if n < |ss| {
      var pre := ss[..|ss| - 1];
      assert pre[..n] == ss[..n];
      CommittedGrows(pre, n);
    } else {
      assert ss[..n] == ss;
    }
  }

  lemma {:induction false} PrefixesBracketed(crc: Crc, ss: seq<Slot>, n: nat)
    requires n <= |ss| && WellBracketed(ss)
    ensures WellBracketed(ss[..n])
    ensures Checksummed(crc, ss) ==> Checksummed(crc, ss[..n])
  {
    if n < |ss| {
      var pre := ss[..|ss| - 1];
      assert pre[..n] == ss[..n];
      PrefixesBracketed(crc, pre, n);
    } else {
      assert ss[..n] == ss;
    }
  }
}
