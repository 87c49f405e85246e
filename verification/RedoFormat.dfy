/** The on-disk records of the redo log: header, index blocks and tags (rfsck-lib/redo.h). */
module RedoFormat {
  import opened Bytes

  const REDO_LOG_BLOCK_SIZE := 4096
  const HEADER_SIZE := 512
  const TAG_SIZE := 16
  const KEYS_PER_BLOCK := 255
  const STATE_FINISHED: u32 := 1
  const TXN_CHKSM_CNST: u32 := 0x3F92_1710
  const TXN_REPLAYED_CNST: u32 := 0x2FC8_310A

  /** CRC32C with the seed the log uses; nothing in the model depends on which function it is. */
  type Crc = seq<byte> -> u32

  /** One index slot. A data tag has `size > 0`; a begin or end marker has `size == 0` and `crc > 0`. */
  datatype Tag = Tag(offset: u64, size: u32, crc: u32)

  const ZERO_TAG := Tag(0, 0, 0)

  datatype BlockHead = BlockHead(magic: u32, crc: u32)

  datatype Header = Header(
    magic: seq<byte>, numKeys: u64, superOffset: u64, keyOffset: u64,
    sbCrc: u32, state: u32, headerCrc: u32, padding: seq<byte>)
  {
    predicate Sized() { |magic| == 8 && |padding| == 468 }
  }

  /* ----- tags ----- */

  function EncodeTag(t: Tag): (s: seq<byte>)
    ensures |s| == TAG_SIZE
  {
    LittleEndian(t.offset, 8) + LittleEndian(t.size, 4) + LittleEndian(t.crc, 4)
  }

  function DecodeTag(s: seq<byte>): Tag
    requires |s| == TAG_SIZE
  {
    Tag(Read64(s[..8]), Read32(s[8..12]), Read32(s[12..]))
  }

  lemma TagRoundTrip(t: Tag)
    ensures DecodeTag(EncodeTag(t)) == t
  {
    var s := EncodeTag(t);
    assert s[..8] == LittleEndian(t.offset, 8);
    assert s[8..12] == LittleEndian(t.size, 4);
    assert s[12..] == LittleEndian(t.crc, 4);
    Read64RoundTrip(t.offset);
    Read32RoundTrip(t.size);
    Read32RoundTrip(t.crc);
  }

  function EncodeTags(ts: seq<Tag>): (s: seq<byte>)
    ensures |s| == TAG_SIZE * |ts|
  {
    if ts == [] then [] else EncodeTag(ts[0]) + EncodeTags(ts[1..])
  }

  function DecodeTags(s: seq<byte>, n: nat): (ts: seq<Tag>)
    requires |s| == TAG_SIZE * n
    ensures |ts| == n
  {
    if n == 0 then [] else [DecodeTag(s[..TAG_SIZE])] + DecodeTags(s[TAG_SIZE..], n - 1)
  }

  lemma {:induction false} TagsRoundTrip(ts: seq<Tag>)
    ensures DecodeTags(EncodeTags(ts), |ts|) == ts
  {
    if ts == [] {
    } else {
      var s := EncodeTags(ts);
      assert s[..TAG_SIZE] == EncodeTag(ts[0]);
      assert s[TAG_SIZE..] == EncodeTags(ts[1..]);
      TagRoundTrip(ts[0]);
      TagsRoundTrip(ts[1..]);
    }
  }

  /* ----- index blocks ----- */

  function EncodeBlock(h: BlockHead, ts: seq<Tag>): (s: seq<byte>)
    requires |ts| == KEYS_PER_BLOCK
    ensures |s| == REDO_LOG_BLOCK_SIZE
  {
    LittleEndian(h.magic, 4) + LittleEndian(h.crc, 4) + LittleEndian(0, 8) + EncodeTags(ts)
  }

  function DecodeBlock(s: seq<byte>): (ts: seq<Tag>)
    requires |s| == REDO_LOG_BLOCK_SIZE
    ensures |ts| == KEYS_PER_BLOCK
  {
    DecodeTags(s[TAG_SIZE..], KEYS_PER_BLOCK)
  }

  function DecodeHead(s: seq<byte>): BlockHead
    requires |s| == REDO_LOG_BLOCK_SIZE
  {
    BlockHead(Read32(s[..4]), Read32(s[4..8]))
  }

  lemma BlockRoundTrip(h: BlockHead, ts: seq<Tag>)
    requires |ts| == KEYS_PER_BLOCK
    ensures DecodeBlock(EncodeBlock(h, ts)) == ts
  {
    assert EncodeBlock(h, ts)[TAG_SIZE..] == EncodeTags(ts);
    TagsRoundTrip(ts);
  }

  /** The `hash` of a magic string: `hash * 33 + c`, in 32 bits. */
  function Hash(s: string, h: u32): u32 {
    if s == [] then h else Hash(s[1..], (h * 33 + s[0] as int) % 0x1_0000_0000)
  }

  function BlockMagic(): u32 { Hash("E2REDO02", 5381) }

  /** The block as the writer puts it out: magic, zero `reserved`, CRC over the block with a zero CRC. */
  function SealedBlock(crc: Crc, ts: seq<Tag>): (s: seq<byte>)
    requires |ts| == KEYS_PER_BLOCK
    ensures |s| == REDO_LOG_BLOCK_SIZE
  {
    EncodeBlock(BlockHead(BlockMagic(), crc(EncodeBlock(BlockHead(BlockMagic(), 0), ts))), ts)
  }

  /** The block with its CRC field taken for zero. */
  function Unsealed(s: seq<byte>): (u: seq<byte>)
    requires |s| == REDO_LOG_BLOCK_SIZE
    ensures |u| == REDO_LOG_BLOCK_SIZE
  {
    s[..4] + [0, 0, 0, 0] + s[8..]
  }

  /** What a reader of an index block can check: the magic number, and the CRC over everything but itself. */
  predicate PassesCheck(crc: Crc, s: seq<byte>)
    requires |s| == REDO_LOG_BLOCK_SIZE
  {
    Read32(s[..4]) == BlockMagic() && Read32(s[4..8]) == crc(Unsealed(s))
  }

  lemma ZeroBytes()
    ensures LittleEndian(0, 4) == [0, 0, 0, 0]
  {
    assert LittleEndian(0, 2) == [0, 0];
  }

  /** A block as the writer puts it out passes its own check and holds its tags. */
  lemma SealedPasses(crc: Crc, ts: seq<Tag>)
    requires |ts| == KEYS_PER_BLOCK
    ensures PassesCheck(crc, SealedBlock(crc, ts)) && DecodeBlock(SealedBlock(crc, ts)) == ts
  {
    hide EncodeTags, DecodeBlock, LittleEndian, BlockMagic, Read32;
    var bare := EncodeBlock(BlockHead(BlockMagic(), 0), ts);
    var s := SealedBlock(crc, ts);
    BlockRoundTrip(BlockHead(BlockMagic(), crc(bare)), ts);
    ZeroBytes();
    assert s[..4] == LittleEndian(BlockMagic(), 4) && s[4..8] == LittleEndian(crc(bare), 4);
    assert Unsealed(s) == bare;
    Read32RoundTrip(BlockMagic());
    Read32RoundTrip(crc(bare));
  }

  /** The magic number of index blocks. */
  lemma MagicNumber()
    ensures BlockMagic() == 0xF69FC6E8
  {
    hide Hash;
    HashStep("E2REDO02", 0x1505);
    assert "E2REDO02"[1..] == "2REDO02";
    HashStep("2REDO02", 0x2B5EA);
    assert "2REDO02"[1..] == "REDO02";
    HashStep("REDO02", 0x59735C);
    assert "REDO02"[1..] == "EDO02";
    HashStep("EDO02", 0xB87DF2E);
    assert "EDO02"[1..] == "DO02";
    HashStep("DO02", 0x7C83C533);
    assert "DO02"[1..] == "O02";
    HashStep("O02", 0xCFC6BD7);
    assert "O02"[1..] == "02";
    HashStep("02", 0xAC89E706);
    assert "02"[1..] == "2";
    HashStep("2", 0x3DC6C7F6);
  }

  lemma HashStep(s: string, h: u32)
    requires s != []
    ensures Hash(s, h) == Hash(s[1..], (h * 33 + s[0] as int) % 0x1_0000_0000)
    ensures s[1..] == [] ==> Hash(s, h) == (h * 33 + s[0] as int) % 0x1_0000_0000
  {
  }

  /* ----- the header ----- */

  function EncodeHeader(h: Header): (s: seq<byte>)
    requires h.Sized()
    ensures |s| == HEADER_SIZE
  {
    h.magic + LittleEndian(h.numKeys, 8) + LittleEndian(h.superOffset, 8) + LittleEndian(h.keyOffset, 8)
    + LittleEndian(h.sbCrc, 4) + LittleEndian(h.state, 4) + LittleEndian(h.headerCrc, 4) + h.padding
  }

  function DecodeHeader(s: seq<byte>): (h: Header)
    requires |s| == HEADER_SIZE
    ensures h.Sized()
  {
    Header(s[..8], Read64(s[8..16]), Read64(s[16..24]), Read64(s[24..32]),
           Read32(s[32..36]), Read32(s[36..40]), Read32(s[40..44]), s[44..])
  }

  lemma HeaderRoundTrip(h: Header)
    requires h.Sized()
    ensures DecodeHeader(EncodeHeader(h)) == h
  {
    var s := EncodeHeader(h);
    assert s[..8] == h.magic;
    assert s[8..16] == LittleEndian(h.numKeys, 8);
    assert s[16..24] == LittleEndian(h.superOffset, 8);
    assert s[24..32] == LittleEndian(h.keyOffset, 8);
    assert s[32..36] == LittleEndian(h.sbCrc, 4);
    assert s[36..40] == LittleEndian(h.state, 4);
    assert s[40..44] == LittleEndian(h.headerCrc, 4);
    assert s[44..] == h.padding;
    Read64RoundTrip(h.numKeys);
    Read64RoundTrip(h.superOffset);
    Read64RoundTrip(h.keyOffset);
    Read32RoundTrip(h.sbCrc);
    Read32RoundTrip(h.state);
    Read32RoundTrip(h.headerCrc);
  }

  function HeaderCrc(crc: Crc, h: Header): u32
    requires h.Sized()
  {
    crc(EncodeHeader(h.(headerCrc := 0)))
  }

  function Sealed(crc: Crc, h: Header): Header
    requires h.Sized()
  {
    h.(headerCrc := HeaderCrc(crc, h))
  }

  function HeaderOf(f: File): (h: Header)
    ensures h.Sized()
  {
    DecodeHeader(PRead(f, 0, HEADER_SIZE))
  }

  /** Replay goes past the header only when its CRC matches and its state is "finished". */
  predicate Replayable(crc: Crc, f: File) {
    var h := HeaderOf(f);
    h.headerCrc == HeaderCrc(crc, h) && h.state == STATE_FINISHED
  }

  lemma HeaderReadBack(crc: Crc, f: File, h: Header)
    requires h.Sized()
    ensures HeaderOf(PWrite(f, 0, EncodeHeader(Sealed(crc, h)))) == Sealed(crc, h)
    ensures Replayable(crc, PWrite(f, 0, EncodeHeader(Sealed(crc, h)))) <==> h.state == STATE_FINISHED
  {
    ReadBack(f, 0, EncodeHeader(Sealed(crc, h)));
    HeaderRoundTrip(Sealed(crc, h));
    assert Sealed(crc, h).(headerCrc := 0) == h.(headerCrc := 0);
  }
}
