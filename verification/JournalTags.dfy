/** Descriptor blocks of the journal (e2fsck-patch/debugfs/do_journal.c, e2fsck-patch/lib/ext2fs/kernel-jbd.h). */
module JournalTags {
  import opened Arithmetic
  import opened Bytes

  const JFS_FLAG_ESCAPE := 1
  const JFS_FLAG_SAME_UUID := 2
  const JFS_FLAG_LAST_TAG := 8
  const HEADER := 12
  const UUID := 16

  /** The journal features that decide the layout. */
  datatype Format = Format(blocksize: nat, csum2: bool, csum3: bool, wide: bool) {
    ghost predicate Valid() {
      blocksize >= 1024
    }

    /** `journal_tag_bytes`. */
    function TagBytes(): (n: nat)
      ensures 8 <= n <= 16 && (wide ==> n >= 12) && (csum3 ==> n == 16)
    {
      if csum3 then 16 else (if csum2 then 14 else 12) - (if wide then 0 else 4)
    }

    /** The room for tags behind the header of a descriptor block. */
    function Room(): int {
      blocksize - HEADER - if csum2 || csum3 then 4 else 0
    }

    /** Where the `k`-th tag starts: the first is followed by the journal's UUID. */
    function Off(k: nat): (o: nat)
      ensures k == 0 ==> o == 0
    {
      k * TagBytes() + if k == 0 then 0 else UUID
    }

    /** How many tags a descriptor block holds. */
    function PerDescriptor(): int {
      (Room() - UUID) / TagBytes()
    }

    lemma Capacity(k: nat)
      requires Valid()
      ensures PerDescriptor() > 1
      ensures Off(k) + TagBytes() <= Room() <==> k < PerDescriptor()
    {
      AtMostQuotient(2, Room() - UUID, TagBytes());
      AtMostQuotient(k + 1, Room() - UUID, TagBytes());
      assert (k + 1) * TagBytes() == k * TagBytes() + TagBytes();
    }

    lemma OffStep(k: nat)
      ensures Off(k + 1) == Off(k) + TagBytes() + if k == 0 then UUID else 0
    {
    }

    lemma {:induction false} OffApart(j: nat, k: nat)
      requires j < k
      ensures Off(j) + TagBytes() <= Off(k)
      decreases k
    {
      OffStep(k - 1);
      if j == k - 1 {
      } else {
        OffApart(j, k - 1);
      }
    }
  }

  /** What a tag records. */
  datatype Tag = Tag(blk: nat, last: bool, escape: bool, csum: u32)

  function Flags(first: bool, t: Tag): byte {
    (if first then 0 else JFS_FLAG_SAME_UUID) + (if t.last then JFS_FLAG_LAST_TAG else 0) +
    if t.escape then JFS_FLAG_ESCAPE else 0
  }

  /** Whether bit `mask` (a power of two) is set. */
  predicate Bit(flags: byte, mask: nat)
    requires mask > 0
  {
    flags / mask % 2 == 1
  }

  lemma FlagBits(first: bool, t: Tag)
    ensures Bit(Flags(first, t), JFS_FLAG_SAME_UUID) == !first
    ensures Bit(Flags(first, t), JFS_FLAG_LAST_TAG) == t.last
    ensures Bit(Flags(first, t), JFS_FLAG_ESCAPE) == t.escape
  {
  }

  function Be32(x: nat): (bs: seq<byte>)
    ensures |bs| == 4
  {
    [x / 0x100_0000 % 0x100, x / 0x1_0000 % 0x100, x / 0x100 % 0x100, x % 0x100]
  }

  function FromBe32(bs: seq<byte>): nat
    requires |bs| == 4
  {
    bs[0] as int * 0x100_0000 + bs[1] as int * 0x1_0000 + bs[2] as int * 0x100 + bs[3] as int
  }

  lemma Be32RoundTrip(x: nat)
    requires x < 0x1_0000_0000
    ensures FromBe32(Be32(x)) == x
  {
    FourBytes(x);
  }

  /** The tag at offset `o`, as far as the format records it. */
  ghost predicate TagAt(f: Format, body: seq<byte>, o: nat, first: bool, t: Tag) {
    && o + f.TagBytes() <= |body|
    && body[o..o + 4] == Be32(t.blk % 0x1_0000_0000)
    && body[o + 6] == 0 && body[o + 7] == Flags(first, t)
    && (f.wide ==> body[o + 8..o + 12] == Be32(t.blk / 0x1_0000_0000 % 0x1_0000_0000))
    && CsumAt(f, body, o, t.csum)
  }

  /** The checksum of the data block, or its low half, in the tag at offset `o`. */
  predicate CsumAt(f: Format, body: seq<byte>, o: nat, csum: u32)
    requires o + f.TagBytes() <= |body|
  {
    if f.csum3 then body[o + 12..o + 16] == Be32(csum)
    else f.csum2 ==> body[o + 4] == csum / 0x100 % 0x100 && body[o + 5] == csum % 0x100
  }

  /** The body of a descriptor block starts with these tags. */
  ghost predicate Tagged(f: Format, body: seq<byte>, tags: seq<Tag>) {
    forall k :: 0 <= k < |tags| ==> TagAt(f, body, f.Off(k), k == 0, tags[k])
  }

  /** `count_tags`, from the tag at offset `o` on. */
  function CountFrom(f: Format, body: seq<byte>, o: nat): nat
    requires f.Valid() && |body| == f.blocksize - HEADER
    decreases f.Room() - o
  {
    if o + f.TagBytes() > f.Room() then 0 else
      var flags := body[o + 7];
      var next := o + f.TagBytes() + if Bit(flags, JFS_FLAG_SAME_UUID) then 0 else UUID;
      1 + if Bit(flags, JFS_FLAG_LAST_TAG) then 0 else CountFrom(f, body, next)
  }

  /** No tag but the last says so, and a block without such a tag has no room for another. */
  ghost predicate Complete(f: Format, tags: seq<Tag>) {
    && tags != [] && f.Off(|tags| - 1) + f.TagBytes() <= f.Room()
    && (forall k :: 0 <= k < |tags| - 1 ==> !tags[k].last)
    && (!tags[|tags| - 1].last ==> f.Off(|tags|) + f.TagBytes() > f.Room())
  }

  /** Counting finds exactly the tags that were written. */
  lemma {:induction false} CountTagged(f: Format, body: seq<byte>, tags: seq<Tag>, k: nat)
    requires f.Valid() && |body| == f.blocksize - HEADER
    requires Tagged(f, body, tags) && Complete(f, tags) && k < |tags|
    ensures CountFrom(f, body, f.Off(k)) == |tags| - k
    decreases |tags| - k
  {
    hide Flags, Bit, Be32, CountFrom;
    assert TagAt(f, body, f.Off(k), k == 0, tags[k]);
    FlagBits(k == 0, tags[k]);
    if k < |tags| - 1 {
      f.OffApart(k, |tags| - 1);
    }
    OneTag(f, body, f.Off(k));
    f.OffStep(k);
    if k == |tags| - 1 {
      if !tags[k].last {
        NoTag(f, body, f.Off(k + 1));
      }
    } else {
      CountTagged(f, body, tags, k + 1);
    }
  }

  /* ----- what a reader of the descriptor learns ----- */

  /** Where a data block belongs, whether its first word was disguised, and the checksum stored for it. */
  datatype Target = Target(blk: nat, escape: bool, csum: nat)

  /** What the format has room for of a checksum. */
  function RecordedCsum(f: Format, csum: u32): nat {
    if f.csum3 then csum else if f.csum2 then csum % 0x1_0000 else 0
  }

  /** What a tag records. */
  function TargetOf(f: Format, t: Tag): Target {
    Target(Recorded(f, t.blk), t.escape, RecordedCsum(f, t.csum))
  }

  function ReadCsum(f: Format, body: seq<byte>, o: nat): nat
    requires o + f.TagBytes() <= |body|
  {
    if f.csum3 then FromBe32(body[o + 12..o + 16])
    else if f.csum2 then body[o + 4] as int * 0x100 + body[o + 5] as int else 0
  }

  /** `read_tag_block`. */
  function ReadBlock(f: Format, body: seq<byte>, o: nat): nat
    requires o + f.TagBytes() <= |body|
  {
    FromBe32(body[o..o + 4]) + if f.wide then FromBe32(body[o + 8..o + 12]) * 0x1_0000_0000 else 0
  }

  /** The targets of the tags from offset `o` on, read off the bytes of the descriptor. */
  function TargetsFrom(f: Format, body: seq<byte>, o: nat): (ts: seq<Target>)
    requires f.Valid() && |body| == f.blocksize - HEADER
    ensures |ts| == CountFrom(f, body, o)
    decreases f.Room() - o
  {
    if o + f.TagBytes() > f.Room() then [] else
      var flags := body[o + 7];
      var next := o + f.TagBytes() + if Bit(flags, JFS_FLAG_SAME_UUID) then 0 else UUID;
      [Target(ReadBlock(f, body, o), Bit(flags, JFS_FLAG_ESCAPE), ReadCsum(f, body, o))] +
      if Bit(flags, JFS_FLAG_LAST_TAG) then [] else TargetsFrom(f, body, next)
  }

  /** What the tags record. */
  function AllTargets(f: Format, tags: seq<Tag>): (ts: seq<Target>)
    ensures |ts| == |tags|
  {
    seq(|tags|, i requires 0 <= i < |tags| => TargetOf(f, tags[i]))
  }

  /** A reader finds exactly the targets of the tags that were written. */
  lemma {:induction false} TargetsTagged(f: Format, body: seq<byte>, tags: seq<Tag>, k: nat)
    requires f.Valid() && |body| == f.blocksize - HEADER
    requires Tagged(f, body, tags) && Complete(f, tags) && k < |tags|
    ensures TargetsFrom(f, body, f.Off(k)) == AllTargets(f, tags[k..])
    decreases |tags| - k
  {
    hide Flags, Bit, TagAt, TargetsFrom, TargetOf, CountFrom, AllTargets;
    assert TagAt(f, body, f.Off(k), k == 0, tags[k]);
    if k < |tags| - 1 {
      f.OffApart(k, |tags| - 1);
    }
    ReadsTarget(f, body, f.Off(k), k == 0, tags[k]);
    f.OffStep(k);
    FirstTarget(f, tags, k);
    if k == |tags| - 1 {
      if !tags[k].last {
        NoTarget(f, body, f.Off(k + 1));
      }
    } else {
      TargetsTagged(f, body, tags, k + 1);
    }
  }

  lemma FirstTarget(f: Format, tags: seq<Tag>, k: nat)
    requires k < |tags|
    ensures AllTargets(f, tags[k..]) == [TargetOf(f, tags[k])] + AllTargets(f, tags[k + 1..])
    ensures k == |tags| - 1 ==> AllTargets(f, tags[k + 1..]) == []
  {
    hide TargetOf;
  }

  lemma ReadsTarget(f: Format, body: seq<byte>, o: nat, first: bool, t: Tag)
    requires f.Valid() && |body| == f.blocksize - HEADER && o + f.TagBytes() <= f.Room() && TagAt(f, body, o, first, t)
    ensures TargetsFrom(f, body, o) == [TargetOf(f, t)] +
              if t.last then [] else TargetsFrom(f, body, o + f.TagBytes() + if first then UUID else 0)
  {
    hide Flags, Bit, Be32, TargetsFrom, ReadBlock, ReadCsum, Recorded, RecordedCsum, CountFrom;
    FlagBits(first, t);
    OneTarget(f, body, o);
    BlockRead(f, body, o, first, t);
    CsumRead(f, body, o, t.csum);
  }

  /** A block number reads back as far as the format records it. */
  lemma BlockRead(f: Format, body: seq<byte>, o: nat, first: bool, t: Tag)
    requires TagAt(f, body, o, first, t)
    ensures ReadBlock(f, body, o) == Recorded(f, t.blk)
  {
    hide Be32, FromBe32;
    Be32RoundTrip(t.blk % 0x1_0000_0000);
    Be32RoundTrip(t.blk / 0x1_0000_0000 % 0x1_0000_0000);
  }

  lemma CsumRead(f: Format, body: seq<byte>, o: nat, csum: u32)
    requires o + f.TagBytes() <= |body| && CsumAt(f, body, o, csum)
    ensures ReadCsum(f, body, o) == RecordedCsum(f, csum)
  {
    if f.csum3 {
      hide Be32, FromBe32;
      Be32RoundTrip(csum);
    } else {
      LowHalf(csum);
    }
  }

  lemma LowHalf(x: u32)
    ensures x / 0x100 % 0x100 * 0x100 + x % 0x100 == x % 0x1_0000
  {
  }

  lemma OneTarget(f: Format, body: seq<byte>, o: nat)
    requires f.Valid() && |body| == f.blocksize - HEADER && o + f.TagBytes() <= f.Room()
    ensures o + 7 < |body|
    ensures var next := o + f.TagBytes() + if Bit(body[o + 7], JFS_FLAG_SAME_UUID) then 0 else UUID;
      TargetsFrom(f, body, o) ==
        [Target(ReadBlock(f, body, o), Bit(body[o + 7], JFS_FLAG_ESCAPE), ReadCsum(f, body, o))] +
        if Bit(body[o + 7], JFS_FLAG_LAST_TAG) then [] else TargetsFrom(f, body, next)
  {
  }

  lemma NoTarget(f: Format, body: seq<byte>, o: nat)
    requires f.Valid() && |body| == f.blocksize - HEADER && o + f.TagBytes() > f.Room()
    ensures TargetsFrom(f, body, o) == []
  {
  }

  lemma OneTag(f: Format, body: seq<byte>, o: nat)
    requires f.Valid() && |body| == f.blocksize - HEADER && o + f.TagBytes() <= f.Room()
    ensures o + 7 < |body|
    ensures var next := o + f.TagBytes() + if Bit(body[o + 7], JFS_FLAG_SAME_UUID) then 0 else UUID;
      CountFrom(f, body, o) == 1 + if Bit(body[o + 7], JFS_FLAG_LAST_TAG) then 0 else CountFrom(f, body, next)
  {
  }

  lemma NoTag(f: Format, body: seq<byte>, o: nat)
    requires f.Valid() && |body| == f.blocksize - HEADER && o + f.TagBytes() > f.Room()
    ensures CountFrom(f, body, o) == 0
  {
  }

  /** `count_tags`. */
  method CountTags(f: Format, body: seq<byte>) returns (nr: nat)
    requires f.Valid() && |body| == f.blocksize - HEADER
    ensures nr == CountFrom(f, body, 0)
  {
    hide Bit;
    nr := 0;
    var tagp := 0;
    while tagp + f.TagBytes() <= f.Room()
      invariant nr + CountFrom(f, body, tagp) == CountFrom(f, body, 0)
      decreases f.Room() - tagp
    {
      OneTag(f, body, tagp);
      var flags := body[tagp + 7];
      nr := nr + 1;
      tagp := tagp + f.TagBytes();
      if !Bit(flags, JFS_FLAG_SAME_UUID) {
        tagp := tagp + UUID;
      }
      if Bit(flags, JFS_FLAG_LAST_TAG) {
        return;
      }
    }
  }

  /** What was written can be read back: the block numbers of the tags, in order. */
  lemma TagsRead(f: Format, body: seq<byte>, tags: seq<Tag>, k: nat)
    requires Tagged(f, body, tags) && k < |tags| && tags[k].blk < 0x1_0000_0000_0000_0000
    ensures f.Off(k) + f.TagBytes() <= |body|
    ensures FromBe32(body[f.Off(k)..f.Off(k) + 4]) == tags[k].blk % 0x1_0000_0000
    ensures f.wide ==> FromBe32(body[f.Off(k) + 8..f.Off(k) + 12]) * 0x1_0000_0000 +
                       FromBe32(body[f.Off(k)..f.Off(k) + 4]) == tags[k].blk
  {
    hide Be32, FromBe32;
    var lo, hi := tags[k].blk % 0x1_0000_0000, tags[k].blk / 0x1_0000_0000;
    assert TagAt(f, body, f.Off(k), k == 0, tags[k]);
    Be32RoundTrip(lo);
    assert hi < 0x1_0000_0000;
    Be32RoundTrip(hi);
  }

  /* ----- revoke blocks ----- */

  /** The offset of the first entry, counted from the start of the block: the header and the count come first. */
  const REVOKE_HEADER := 16

  function EntryBytes(f: Format): nat {
    if f.wide then 8 else 4
  }

  function Entry(f: Format, blk: nat): (bs: seq<byte>)
    ensures |bs| == EntryBytes(f)
  {
    if f.wide then Be32(blk / 0x1_0000_0000 % 0x1_0000_0000) + Be32(blk % 0x1_0000_0000) else Be32(blk % 0x1_0000_0000)
  }

  /** What an entry of that size can hold of a block number. */
  function Recorded(f: Format, blk: nat): nat {
    if f.wide then blk % 0x1_0000_0000_0000_0000 else blk % 0x1_0000_0000
  }

  function FromEntry(f: Format, bs: seq<byte>): nat
    requires |bs| == EntryBytes(f)
  {
    if f.wide then FromBe32(bs[..4]) * 0x1_0000_0000 + FromBe32(bs[4..]) else FromBe32(bs)
  }

  lemma EntryRoundTrip(f: Format, blk: nat)
    ensures FromEntry(f, Entry(f, blk)) == Recorded(f, blk)
  {
    var lo, hi := blk % 0x1_0000_0000, blk / 0x1_0000_0000 % 0x1_0000_0000;
    hide Be32, FromBe32;
    Be32RoundTrip(lo);
    Be32RoundTrip(hi);
    if f.wide {
      assert (Be32(hi) + Be32(lo))[..4] == Be32(hi) && (Be32(hi) + Be32(lo))[4..] == Be32(lo);
    }
  }

  /** Where entry `k` starts behind the header words. */
  function EntryOff(f: Format, k: nat): nat {
    REVOKE_HEADER - HEADER + k * EntryBytes(f)
  }

  /** How many entries a revoke block holds. */
  function PerRevokeBlock(f: Format): int {
    (f.Room() - (REVOKE_HEADER - HEADER)) / EntryBytes(f)
  }

  lemma EntryCapacity(f: Format, k: nat)
    requires f.Valid()
    ensures PerRevokeBlock(f) > 1
    ensures EntryOff(f, k) + EntryBytes(f) <= f.Room() <==> k < PerRevokeBlock(f)
  {
    var room := f.Room() - (REVOKE_HEADER - HEADER);
    AtMostQuotient(2, room, EntryBytes(f));
    AtMostQuotient(k + 1, room, EntryBytes(f));
    assert (k + 1) * EntryBytes(f) == k * EntryBytes(f) + EntryBytes(f);
  }

  ghost predicate Revokes(f: Format, body: seq<byte>, list: seq<nat>) {
    forall k :: 0 <= k < |list| ==>
                  EntryOff(f, k) + EntryBytes(f) <= |body| &&
                  body[EntryOff(f, k)..EntryOff(f, k) + EntryBytes(f)] == Entry(f, list[k])
  }

  /** The block numbers a revoke block names. */
  function Revoked(f: Format, body: seq<byte>): seq<nat> {
    if |body| < 4 then [] else
      var count := FromBe32(body[..4]);
      if count < REVOKE_HEADER || count - HEADER > |body| then []
      else RevokedUpTo(f, body, (count - REVOKE_HEADER) / EntryBytes(f))
  }

  function RevokedUpTo(f: Format, body: seq<byte>, n: nat): seq<nat> {
    if n == 0 then [] else
      RevokedUpTo(f, body, n - 1) +
      var o := EntryOff(f, n - 1);
      if o + EntryBytes(f) <= |body| then [FromEntry(f, body[o..o + EntryBytes(f)])] else []
  }

  function AllRecorded(f: Format, list: seq<nat>): seq<nat> {
    seq(|list|, i requires 0 <= i < |list| => Recorded(f, list[i]))
  }

  lemma AllRecordedStep(f: Format, list: seq<nat>, n: nat)
    requires n < |list|
    ensures AllRecorded(f, list[..n + 1]) == AllRecorded(f, list[..n]) + [Recorded(f, list[n])]
  {
  }

  lemma NoneRecorded(f: Format)
    ensures AllRecorded(f, []) == []
  {
  }

  lemma {:induction false} RevokesRead(f: Format, body: seq<byte>, list: seq<nat>, n: nat)
    requires Revokes(f, body, list) && n <= |list|
    ensures RevokedUpTo(f, body, n) == AllRecorded(f, list[..n])
  {
    hide FromEntry, Entry, Recorded, EntryOff, EntryBytes, AllRecorded;
    if n == 0 {
      NoneRecorded(f);
    } else {
      RevokesRead(f, body, list, n - 1);
      EntryRoundTrip(f, list[n - 1]);
      AllRecordedStep(f, list, n - 1);
    }
  }

  /** A finished revoke block names exactly the blocks that were put into it. */
  lemma RevokedIs(f: Format, body: seq<byte>, list: seq<nat>)
    requires Revokes(f, body, list) && 4 <= |body| && EntryOff(f, |list|) <= |body| < 0x1000_0000
    requires body[..4] == Be32(EntryOff(f, |list|) + HEADER)
    ensures Revoked(f, body) == AllRecorded(f, list)
  {
    hide FromEntry, Entry, Recorded, Be32, FromBe32;
    Be32RoundTrip(EntryOff(f, |list|) + HEADER);
    assert |list| * EntryBytes(f) / EntryBytes(f) == |list|;
    RevokesRead(f, body, list, |list|);
    assert list[..|list|] == list;
  }
}
