/** What each logging call adds to the log, and the writes it issues to the log file, in order. */
module RedoWriter {
  import opened Bytes
  import opened RedoFormat
  import opened RedoLayout

  /** One `pwrite`; the crash model lets any prefix of the issued writes reach the file. */
  datatype Pwrite = Pwrite(off: nat, bytes: seq<byte>)

  function Put(f: File, w: Pwrite): File { PWrite(f, w.off, w.bytes) }

  function Apply(f: File, ws: seq<Pwrite>): File {
    if ws == [] then f else Put(Apply(f, ws[..|ws| - 1]), ws[|ws| - 1])
  }

  lemma ApplyFew(f: File, a: Pwrite, b: Pwrite, c: Pwrite, d: Pwrite)
    ensures Apply(f, [a]) == Put(f, a)
    ensures Apply(f, [a, b]) == Put(Put(f, a), b)
    ensures Apply(f, [a, b, c, d]) == Put(Put(Put(Put(f, a), b), c), d)
  {
    assert [a][..0] == [] && [a, b][..1] == [a];
    assert [a, b, c][..2] == [a, b] && [a, b, c, d][..3] == [a, b, c];
  }

  lemma {:induction false} ApplyConcat(f: File, vs: seq<Pwrite>, ws: seq<Pwrite>)
    ensures Apply(f, vs + ws) == Apply(Apply(f, vs), ws)
  {
    if ws == [] {
      assert vs + ws == vs;
    } else {
      assert (vs + ws)[..|vs + ws| - 1] == vs + ws[..|ws| - 1];
      ApplyConcat(f, vs, ws[..|ws| - 1]);
    }
  }

  /** The calls of a session. */
  datatype Op = Begin | Write(offset: u64, data: Buffer) | End | MarkDone(done: bool)

  /** The logical state behind `redo_data`: the slots written so far, the next id, the running checksum, the header. */
  datatype Writer = Writer(slots: seq<Slot>, txnId: u32, csum: u32, hdr: Header)

  /** `txn_id` is an `int` that is stored into a 32-bit tag field. */
  const MAX_TXN_ID: u32 := 0x7FFF_FFFF

  predicate CanStep(w: Writer, op: Op) {
    && (op.End? ==> w.txnId < MAX_TXN_ID)
    && (op.MarkDone? ==> w.hdr.Sized() && |w.slots| < 0x1_0000_0000_0000_0000)
  }

  function Step(crc: Crc, w: Writer, op: Op): Writer
    requires CanStep(w, op)
  {
    match op
    case Begin =>
      w.(slots := w.slots + [BeginSlot(w.txnId)], csum := Xor32(TXN_CHKSM_CNST, TagCrc(crc, Tag(0, 0, w.txnId))))
    case Write(offset, data) =>
      var s := DataSlot(offset, data);
      w.(slots := w.slots + [s], csum := Xor32(w.csum, TagCrc(crc, TagOf(crc, s))))
    case End =>
      var csum := Xor32(w.csum, TagCrc(crc, Tag(0, 0, w.txnId)));
      w.(slots := w.slots + [EndSlot(w.txnId, csum)], csum := 0, txnId := w.txnId + 1)
    case MarkDone(done) =>
      w.(hdr := Sealed(crc, w.hdr.(numKeys := |w.slots| / KEYS_PER_BLOCK, state := if done then 1 else 0)))
  }

  /** The write of index block `b`. */
  function BlockWrite(crc: Crc, ss: seq<Slot>, b: nat): Pwrite
    requires b <= |ss| / KEYS_PER_BLOCK
  {
    Pwrite(BlockPos(Index(crc, ss), b), SealedBlock(crc, BlockOf(Index(crc, ss), b)))
  }

  /** The write of the index block that holds the newest slot. */
  function LastSlotWrite(crc: Crc, ss: seq<Slot>): Pwrite
    requires ss != []
  {
    BlockWrite(crc, ss, (|ss| - 1) / KEYS_PER_BLOCK)
  }

  /** The write of the block that the next slot goes into, which is a new empty one after every 255 slots. */
  function CurrentWrite(crc: Crc, ss: seq<Slot>): Pwrite {
    BlockWrite(crc, ss, |ss| / KEYS_PER_BLOCK)
  }

  function Writes(crc: Crc, w: Writer, op: Op): (ws: seq<Pwrite>)
    requires CanStep(w, op)
    requires w.hdr.Sized()
  {
    var after := Step(crc, w, op);
    match op
    case Begin => [LastSlotWrite(crc, after.slots)]
    case Write(_, data) =>
      [Pwrite(Pos(Index(crc, w.slots), |w.slots|), data), LastSlotWrite(crc, after.slots)]
    case End => [LastSlotWrite(crc, after.slots), CurrentWrite(crc, after.slots)]
    case MarkDone(_) =>
      var flush := CurrentWrite(crc, w.slots);
      [flush, flush, Pwrite(0, EncodeHeader(after.hdr)), flush]
  }

  /* ----- whole sessions ----- */

  predicate Runnable(crc: Crc, w: Writer, ops: seq<Op>)
    decreases |ops|, 0
  {
    ops == [] ||
    var pre := ops[..|ops| - 1];
    Runnable(crc, w, pre) && CanStep(Run(crc, w, pre), ops[|ops| - 1])
  }

  function Run(crc: Crc, w: Writer, ops: seq<Op>): Writer
    requires Runnable(crc, w, ops)
    decreases |ops|, 1
  {
    if ops == [] then w else Step(crc, Run(crc, w, ops[..|ops| - 1]), ops[|ops| - 1])
  }

  lemma {:induction false} HeaderStaysSized(crc: Crc, w: Writer, ops: seq<Op>)
    requires Runnable(crc, w, ops) && w.hdr.Sized()
    ensures Run(crc, w, ops).hdr.Sized()
  {
    if ops == [] {
    } else {
      HeaderStaysSized(crc, w, ops[..|ops| - 1]);
    }
  }

  /** All writes a session issues to the log file, in order. */
  function Trace(crc: Crc, w: Writer, ops: seq<Op>): (ws: seq<Pwrite>)
    requires Runnable(crc, w, ops) && w.hdr.Sized()
  {
    if ops == [] then []
    else
      var pre := ops[..|ops| - 1];
      HeaderStaysSized(crc, w, pre);
      Trace(crc, w, pre) + Writes(crc, Run(crc, w, pre), ops[|ops| - 1])
  }

  /** Every begin is outside a transaction and every end inside one; writes may be anywhere, but are not empty. */
  predicate Bracketed(ops: seq<Op>) {
    ops == [] ||
    var pre := ops[..|ops| - 1];
    && Bracketed(pre)
    && match ops[|ops| - 1]
       case Begin => !InTxn(pre)
       case Write(_, data) => data != []
       case End => InTxn(pre)
       case MarkDone(_) => true
  }

  predicate InTxn(ops: seq<Op>) {
    ops != [] &&
    match ops[|ops| - 1]
    case Begin => true
    case End => false
    case Write(_, _) => InTxn(ops[..|ops| - 1])
    case MarkDone(_) => InTxn(ops[..|ops| - 1])
  }

  /** The bracketing predicates, one slot later. */
  lemma SnocSlot(crc: Crc, ss: seq<Slot>, s: Slot)
    ensures OpenAt(ss + [s]) ==
              match s case BeginSlot(_) => |ss| case EndSlot(_, _) => -1 case DataSlot(_, _) => OpenAt(ss)
    ensures WellBracketed(ss + [s]) <==> WellBracketed(ss) && match s
              case BeginSlot(id) => OpenAt(ss) < 0 && id > 0
              case DataSlot(_, data) => data != []
              case EndSlot(id, _) => OpenAt(ss) >= 0 && id > 0
    ensures Checksummed(crc, ss + [s]) <==>
              && Checksummed(crc, ss)
              && (s.EndSlot? ==> s.csum == Xor32(Chain(crc, ss), TagCrc(crc, Tag(0, 0, s.id))))
    ensures Chain(crc, ss + [s]) == match s
              case BeginSlot(id) => Xor32(TXN_CHKSM_CNST, TagCrc(crc, Tag(0, 0, id)))
              case EndSlot(_, _) => 0
              case DataSlot(_, _) => Xor32(Chain(crc, ss), TagCrc(crc, TagOf(crc, s)))
  {
    hide Xor32, TagCrc, TagOf;
    assert (ss + [s])[..|ss + [s]| - 1] == ss;
  }

  /** A bracketed session that starts from an empty log with a positive id writes well-bracketed, checksummed slots. */
  lemma {:induction false} SessionSlots(crc: Crc, w: Writer, ops: seq<Op>)
    requires Runnable(crc, w, ops) && Bracketed(ops)
    requires w.slots == [] && 0 < w.txnId <= MAX_TXN_ID
    ensures var r := Run(crc, w, ops);
      && WellBracketed(r.slots) && Checksummed(crc, r.slots)
      && (OpenAt(r.slots) >= 0 <==> InTxn(ops))
      && (InTxn(ops) ==> r.csum == Chain(crc, r.slots))
      && w.txnId <= r.txnId <= MAX_TXN_ID
  {
    if ops == [] {
    } else {
      var pre := Run(crc, w, ops[..|ops| - 1]);
      SessionSlots(crc, w, ops[..|ops| - 1]);
      hide Xor32, TagCrc, TagOf, WellBracketed, Checksummed, OpenAt, Chain, HeaderCrc;
      match ops[|ops| - 1]
      case Begin => SnocSlot(crc, pre.slots, BeginSlot(pre.txnId));
      case Write(offset, data) => SnocSlot(crc, pre.slots, DataSlot(offset, data));
      case End => SnocSlot(crc, pre.slots, EndSlot(pre.txnId, Xor32(pre.csum, TagCrc(crc, Tag(0, 0, pre.txnId)))));
      case MarkDone(_) =>
    }
  }
}
