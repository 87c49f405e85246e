/** The writer of a journal transaction (e2fsck-patch/debugfs/do_journal.c). */
module JournalWriter {
  import opened Arithmetic
  import opened Bytes
  import opened JournalTags
  import opened Journal

  /** Copies bytes into a buffer. */
  method PutBytes(buf: array<byte>, o: nat, bs: seq<byte>)
    requires o + |bs| <= buf.Length
    modifies buf
    ensures forall x :: 0 <= x < buf.Length ==> buf[x] == if o <= x < o + |bs| then bs[x - o] else old(buf[x])
  {
    var i := 0;
    while i < |bs|
      invariant 0 <= i <= |bs|
      invariant forall x :: 0 <= x < buf.Length ==> buf[x] == if o <= x < o + i then bs[x - o] else old(buf[x])
    {
      buf[o + i] := bs[i];
      i := i + 1;
    }
  }

  /** Byte `x` of a descriptor is not touched by filling out the tag at offset `o`. */
  predicate Spared(f: Format, o: nat, x: nat) {
    && !(o <= x < o + f.TagBytes())
    && !(o == 0 && 12 * f.TagBytes() <= x < 12 * f.TagBytes() + UUID)
  }

  /** The four bytes at the end that hold the checksum of the block, if there is one, are not touched. */
  lemma TailSpared(f: Format, o: nat, x: nat)
    requires f.Valid() && (f.csum2 || f.csum3) && o + f.TagBytes() <= f.Room() && x + HEADER + 4 >= f.blocksize
    ensures Spared(f, o, x)
  {
    assert 12 * f.TagBytes() + UUID <= 12 * 16 + UUID;
  }

  /** Fills out the tag at offset `o`. The copy of the UUID goes to an offset that is scaled by the size of a tag. */
  method FillTag(f: Format, buf: array<byte>, o: nat, t: Tag, uuid: seq<byte>)
    requires f.Valid() && buf.Length == f.blocksize - HEADER && o + f.TagBytes() <= f.Room() && |uuid| == UUID
    modifies buf
    ensures TagAt(f, buf[..], o, o == 0, t)
    ensures o == 0 ==> buf[12 * f.TagBytes()..12 * f.TagBytes() + UUID] == uuid
    ensures forall x :: 0 <= x < buf.Length && Spared(f, o, x) ==> buf[x] == old(buf[x])
  {
    hide Be32, Flags, CsumAt;
    var lo, hi := Be32(t.blk % 0x1_0000_0000), Be32(t.blk / 0x1_0000_0000 % 0x1_0000_0000);
    if o == 0 {
      PutBytes(buf, 12 * f.TagBytes(), uuid);
    }
    PutBytes(buf, o, lo);
    buf[o + 6], buf[o + 7] := 0, Flags(o == 0, t);
    if f.wide {
      PutBytes(buf, o + 8, hi);
    }
    PutChecksum(f, buf, o, t.csum);
    SliceIs(buf[..], o, lo);
    if o == 0 {
      SliceIs(buf[..], 12 * f.TagBytes(), uuid);
    }
    if f.wide {
      SliceIs(buf[..], o + 8, hi);
    }
  }

  /** `jbd2_block_tag_csum_set`: all of the checksum, or its low half, beside the block number. */
  method PutChecksum(f: Format, buf: array<byte>, o: nat, csum: u32)
    requires o + f.TagBytes() <= buf.Length
    modifies buf
    ensures CsumAt(f, buf[..], o, csum)
    ensures f.csum3 ==> forall x :: 0 <= x < buf.Length && !(o + 12 <= x < o + 16) ==> buf[x] == old(buf[x])
    ensures !f.csum3 ==> forall x :: 0 <= x < buf.Length && !(o + 4 <= x < o + 6) ==> buf[x] == old(buf[x])
  {
    hide Be32;
    if f.csum3 {
      PutBytes(buf, o + 12, Be32(csum));
      SliceIs(buf[..], o + 12, Be32(csum));
    } else if f.csum2 {
      buf[o + 4], buf[o + 5] := csum / 0x100 % 0x100, csum % 0x100;
    }
  }

  lemma SliceIs(s: seq<byte>, o: nat, bs: seq<byte>)
    requires o + |bs| <= |s| && forall x :: o <= x < o + |bs| ==> s[x] == bs[x - o]
    ensures s[o..o + |bs|] == bs
  {
  }

  lemma TaggedSnoc(f: Format, was: seq<byte>, now: seq<byte>, tags: seq<Tag>, t: Tag)
    requires Tagged(f, was, tags) && |was| == |now| && TagAt(f, now, f.Off(|tags|), tags == [], t)
    requires forall x :: 0 <= x < f.Off(|tags|) ==> now[x] == was[x]
    ensures Tagged(f, now, tags + [t])
  {
    var more := tags + [t];
    forall k | 0 <= k < |more|
      ensures TagAt(f, now, f.Off(k), k == 0, more[k])
    {
      if k < |tags| {
        f.OffApart(k, |tags|);
        TagKept(f, was, now, f.Off(k), k == 0, tags[k]);
      }
    }
  }

  lemma TagKept(f: Format, was: seq<byte>, now: seq<byte>, o: nat, first: bool, t: Tag)
    requires TagAt(f, was, o, first, t) && |was| == |now|
    requires forall x :: o <= x < o + f.TagBytes() && x < |was| ==> now[x] == was[x]
    ensures TagAt(f, now, o, first, t)
  {
    assert now[o..o + 4] == was[o..o + 4];
    assert f.wide ==> now[o + 8..o + 12] == was[o + 8..o + 12];
    assert f.csum3 ==> now[o + 12..o + 16] == was[o + 12..o + 16];
  }

  /** A data block that looks like a journal block is disguised. */
  function Escaped(b: Block): Block {
    if b.magic == JFS_MAGIC_NUMBER then b.(magic := 0) else b
  }

  /** The blocks behind a descriptor, with what its tags say about them. */
  function Described(f: Format, tags: seq<Tag>, some: seq<Block>): (r: seq<Found>)
    requires |tags| == |some|
    ensures |r| == |tags|
  {
    seq(|tags|, i requires 0 <= i < |tags| => Found(TargetOf(f, tags[i]), some[i]))
  }

  /** What a block, its number and its checksum should be found as: disguised where needed and flagged so. */
  function FoundAs(f: Format, blk: nat, b: Block, csum: u32): Found {
    Found(Target(Recorded(f, blk), b.magic == JFS_MAGIC_NUMBER, RecordedCsum(f, csum)), Escaped(b))
  }

  function AllFound(f: Format, list: seq<nat>, data: seq<Block>, csums: seq<u32>): (r: seq<Found>)
    requires |list| == |data| == |csums|
    ensures |r| == |data|
  {
    seq(|data|, i requires 0 <= i < |data| => FoundAs(f, list[i], data[i], csums[i]))
  }

  /**
   Then a replay writes exactly the data, each block where it belongs as far as the format records its number, and no
   data block in the log looks like a block of the journal.
   */
  lemma FoundIsData(f: Format, list: seq<nat>, data: seq<Block>, csums: seq<u32>, k: nat)
    requires |list| == |data| == |csums| && k < |data|
    ensures var found := AllFound(f, list, data, csums)[k];
      && found.target.blk == Recorded(f, list[k]) && found.target.csum == RecordedCsum(f, csums[k])
      && found.Restored() == data[k] && found.raw.magic != JFS_MAGIC_NUMBER
  {
  }

  lemma NoData(f: Format, before: seq<Found>, list: seq<nat>, data: seq<Block>, csums: seq<u32>)
    requires list == [] && data == [] && csums == []
    ensures before + AllFound(f, list, data, csums) == before && before + Described(f, [], []) == before
  {
  }

  /** The first `i` blocks of the lists. */
  function FoundUpTo(f: Format, list: seq<nat>, data: seq<Block>, csums: seq<u32>, i: nat): seq<Found>
    requires |list| == |data| == |csums| && i <= |list|
  {
    AllFound(f, list[..i], data[..i], csums[..i])
  }

  /** One more block of the list behind one more tag. */
  lemma OneMoreFound(f: Format, before: seq<Found>, done: seq<Found>, tags: seq<Tag>, some: seq<Block>, list: seq<nat>,
                     data: seq<Block>, csums: seq<u32>, i: nat, t: Tag)
    requires i < |list| == |data| == |csums| && |tags| == |some|
    requires t.blk == list[i] && t.escape == (data[i].magic == JFS_MAGIC_NUMBER) && t.csum == csums[i]
    requires done + Described(f, tags, some) == before + FoundUpTo(f, list, data, csums, i)
    ensures done + Described(f, tags + [t], some + [Escaped(data[i])]) ==
            before + FoundUpTo(f, list, data, csums, i + 1)
  {
    var x := [FoundAs(f, list[i], data[i], csums[i])];
    assert x == [Found(TargetOf(f, t), Escaped(data[i]))];
    hide FoundAs, TargetOf, Escaped;
    assert Described(f, tags + [t], some + [Escaped(data[i])]) == Described(f, tags, some) + x;
    assert FoundUpTo(f, list, data, csums, i + 1) == FoundUpTo(f, list, data, csums, i) + x;
    hide Described, FoundUpTo;
    assert done + (Described(f, tags, some) + x) == (done + Described(f, tags, some)) + x;
    var was := FoundUpTo(f, list, data, csums, i);
    assert before + (was + x) == (before + was) + x;
  }

  /** The data blocks of a descriptor that is still being filled follow its place in the log. */
  ghost predicate Pending(log: Log, p: nat, data: seq<Block>) {
    forall i :: p < i <= p + |data| ==> i in log && log[i] == data[i - p - 1]
  }

  /** Writing the descriptor makes a walk pass it and its data. */
  lemma DescriptorWalk(f: Format, log: Log, tid: nat, b: nat, n: nat, p: nat, tags: seq<Tag>, body: seq<byte>,
                       data: seq<Block>)
    requires f.Valid() && Fits(f, log) && |body| == f.blocksize - HEADER && |data| == |tags|
    requires WalkOn(f, log, tid, b, n).Walk? && WalkOn(f, log, tid, b, n).next == p && b <= p
    requires Tagged(f, body, tags) && Complete(f, tags) && Pending(log, p, data)
    ensures var now := log[p := Block(JFS_MAGIC_NUMBER, JFS_DESCRIPTOR_BLOCK, tid, body)];
      var w := WalkOn(f, log, tid, b, n);
      && Fits(f, now)
      && WalkOn(f, now, tid, b, n + 1) == Walk(p + 1 + |tags|, w.data + Described(f, tags, data), w.revoked)
  {
    hide Tagged, Complete, CountFrom, TargetsFrom, WalkOn, TargetOf;
    var now := log[p := Block(JFS_MAGIC_NUMBER, JFS_DESCRIPTOR_BLOCK, tid, body)];
    WalkFrame(f, log, now, tid, b, n);
    WalkStep(f, now, tid, b, n + 1);
    TargetsAll(f, body, tags);
    assert Slice(now, p + 1, AllTargets(f, tags)) == Described(f, tags, data);
    assert WalkOne(f, now, tid, p) == Walk(p + 1 + |tags|, Described(f, tags, data), []);
    assert WalkOn(f, log, tid, b, n).revoked + [] == WalkOn(f, log, tid, b, n).revoked;
  }

  lemma TargetsAll(f: Format, body: seq<byte>, tags: seq<Tag>)
    requires f.Valid() && |body| == f.blocksize - HEADER && Tagged(f, body, tags) && Complete(f, tags)
    ensures TargetsFrom(f, body, 0) == AllTargets(f, tags)
  {
    TargetsTagged(f, body, tags, 0);
    assert tags[0..] == tags;
  }

  /** Writing a revoke block makes a walk pass it. */
  lemma RevokeWalk(f: Format, log: Log, tid: nat, b: nat, n: nat, p: nat, body: seq<byte>)
    requires f.Valid() && Fits(f, log) && |body| == f.blocksize - HEADER
    requires WalkOn(f, log, tid, b, n).Walk? && WalkOn(f, log, tid, b, n).next == p && b <= p
    ensures var now := log[p := Block(JFS_MAGIC_NUMBER, JFS_REVOKE_BLOCK, tid, body)];
      var w := WalkOn(f, log, tid, b, n);
      && Fits(f, now)
      && WalkOn(f, now, tid, b, n + 1) == Walk(p + 1, w.data, w.revoked + Revoked(f, body))
  {
    hide Revoked, CountFrom, WalkOn;
    var now := log[p := Block(JFS_MAGIC_NUMBER, JFS_REVOKE_BLOCK, tid, body)];
    WalkFrame(f, log, now, tid, b, n);
    WalkStep(f, now, tid, b, n + 1);
    assert WalkOn(f, log, tid, b, n).data + [] == WalkOn(f, log, tid, b, n).data;
  }

  /** The descriptor blocks and revoke blocks that lists of these lengths need. */
  function Descriptors(f: Format, n: nat): nat
    requires f.Valid()
  {
    f.Capacity(0);
    BlocksFor(n, f.PerDescriptor())
  }

  function RevokeBlocks(f: Format, n: nat): nat
    requires f.Valid()
  {
    EntryCapacity(f, 0);
    BlocksFor(n, PerRevokeBlock(f))
  }

  /** All blocks of a transaction, with its commit block. */
  function TransactionBlocks(f: Format, n: nat, revokes: nat): nat
    requires f.Valid()
  {
    n + Descriptors(f, n) + RevokeBlocks(f, revokes) + 1
  }

  /** The blocks outside `lo .. hi` are as they were. */
  ghost predicate Outside(was: Log, now: Log, lo: nat, hi: nat) {
    forall i :: i < lo || hi <= i ==> (i in now <==> i in was) && (i in now ==> now[i] == was[i])
  }

  lemma OutsideSelf(a: Log, lo: nat, hi: nat)
    ensures Outside(a, a, lo, hi)
  {
  }

  lemma OutsideThen(a: Log, b: Log, c: Log, lo: nat, hi: nat, p: nat, q: nat)
    requires Outside(a, b, lo, hi) && Outside(b, c, p, q) && lo <= p && q <= hi
    ensures Outside(a, c, lo, hi)
  {
  }

  lemma OutsideGrows(a: Log, b: Log, lo: nat, hi: nat, more: nat)
    requires Outside(a, b, lo, hi) && hi <= more
    ensures Outside(a, b, lo, more)
  {
  }

  /** `journal_transaction_t`, together with the journal it writes to. */
  class Transaction {
    const f: Format
    const tid: nat
    /** The number of blocks of the file system. */
    const fsBlocks: nat
    const uuid: seq<byte>
    const start: nat
    const jdb: array<byte>
    var log: Log
    var block: nat
    var open: bool
    var committed: bool

    ghost predicate Shape() {
      f.Valid() && f.blocksize < 0x1000_0000 && |uuid| == UUID && jdb.Length == f.blocksize - HEADER
    }

    /** After `n` descriptor and revoke blocks: what a walk from the start finds. */
    ghost predicate Holds(n: nat, data: seq<Found>, revoked: seq<nat>)
      reads this`log, this`block
    {
      Shape() && Fits(f, log) && start <= block && WalkOn(f, log, tid, start, n) == Walk(block, data, revoked)
    }

    /** `journal_open_trans`. */
    constructor (f: Format, tid: nat, fsBlocks: nat, uuid: seq<byte>, start: nat, log: Log)
      requires f.Valid() && f.blocksize < 0x1000_0000 && |uuid| == UUID && Fits(f, log)
      ensures Holds(0, [], []) && open && !committed && this.log == log && this.start == start
      ensures this.f == f && this.tid == tid && this.fsBlocks == fsBlocks && fresh(jdb)
    {
      this.f, this.tid, this.fsBlocks, this.uuid, this.start := f, tid, fsBlocks, uuid, start;
      this.log, block, open, committed := log, start, true, false;
      jdb := new byte[f.blocksize - HEADER](_ => 0);
    }

    /** The state in the middle of `journal_add_blocks_to_trans`. */
    ghost predicate Filling(n: nat, p: nat, tags: seq<Tag>, done: seq<Found>, some: seq<Block>, revoked: seq<nat>)
      reads this`log, jdb
    {
      && Shape() && Fits(f, log) && start <= p && |some| == |tags|
      && WalkOn(f, log, tid, start, n) == Walk(p, done, revoked)
      && Tagged(f, jdb[..], tags) && Pending(log, p, some)
      && (tags != [] ==> f.Off(|tags| - 1) + f.TagBytes() <= f.Room())
    }

    /** Only the last tag of the whole list says that it is the last. */
    ghost predicate Lasts(tags: seq<Tag>, all: bool) {
      && (all ==> tags != [] && tags[|tags| - 1].last)
      && forall k :: 0 <= k < (if all then |tags| - 1 else |tags|) ==> !tags[k].last
    }

    lemma LastsSnoc(tags: seq<Tag>, t: Tag)
      requires Lasts(tags, false)
      ensures Lasts(tags + [t], t.last)
    {
    }

    /** Writes out the descriptor block. */
    method WriteDescriptor(p: nat, ghost n: nat, ghost tags: seq<Tag>, ghost done: seq<Found>, ghost some: seq<Block>,
                           ghost revoked: seq<nat>, ghost orig: Log, ghost lo: nat)
      requires Filling(n, p, tags, done, some, revoked) && Complete(f, tags)
      requires lo <= p && Outside(orig, log, lo, p + 1 + |tags|)
      modifies this`log
      ensures Shape() && start <= p && Fits(f, log)
      ensures WalkOn(f, log, tid, start, n + 1) == Walk(p + 1 + |tags|, done + Described(f, tags, some), revoked)
      ensures Outside(orig, log, lo, p + 1 + |tags|) && Outside(orig, log, lo, p + 2 + |tags|)
    {
      DescriptorWalk(f, log, tid, start, n, p, tags, jdb[..], some);
      log := log[p := Block(JFS_MAGIC_NUMBER, JFS_DESCRIPTOR_BLOCK, tid, jdb[..])];
    }

    /** One more tag and its data block. */
    method AddBlock(p: nat, curr: nat, o: nat, t: Tag, b: Block, ghost n: nat, ghost tags: seq<Tag>,
                    ghost done: seq<Found>, ghost some: seq<Block>, ghost revoked: seq<nat>, ghost orig: Log,
                    ghost lo: nat)
      requires lo <= p && Outside(orig, log, lo, curr)
      requires Filling(n, p, tags, done, some, revoked) && o == f.Off(|tags|) && o + f.TagBytes() <= f.Room()
      requires |b.body| == f.blocksize - HEADER && curr == p + 1 + |tags|
      modifies this`log, jdb
      ensures Filling(n, p, tags + [t], done, some + [b], revoked)
      ensures Outside(orig, log, lo, curr + 1)
      ensures f.Off(|tags| + 1) == o + f.TagBytes() + if o == 0 then UUID else 0
    {
      hide TagAt, WalkOn, Tagged;
      ghost var was := jdb[..];
      assert o == 0 <==> tags == [] by {
        f.OffStep(0);
        if |tags| > 0 {
          f.OffApart(0, |tags|);
        }
      }
      FillTag(f, jdb, o, t, uuid);
      TaggedSnoc(f, was, jdb[..], tags, t);
      WalkFrame(f, log, log[curr := b], tid, start, n);
      log := log[curr := b];
      f.OffStep(|tags|);
    }

    /**
     `journal_add_blocks_to_trans`: a walk over the descriptor blocks finds exactly the data blocks, in order, each with
     the number it was given and its escape flag, and ends where the transaction goes on.
     */
    method AddBlocks(list: seq<nat>, data: seq<Block>, csums: seq<u32>, ghost n: nat, ghost before: seq<Found>,
                     ghost revoked: seq<nat>)
      returns (ok: bool, ghost m: nat)
      requires Holds(n, before, revoked) && |list| == |data| == |csums|
      requires forall k :: 0 <= k < |data| ==> |data[k].body| == f.blocksize - HEADER
      modifies this`log, this`block, jdb
      ensures ok <==> open && !committed && forall k :: 0 <= k < |list| ==> list[k] < fsBlocks
      ensures ok ==> Holds(m, before + AllFound(f, list, data, csums), revoked)
      ensures f.Valid() && (ok ==> block == old(block) + |list| + Descriptors(f, |list|))
      ensures Outside(old(log), log, old(block), block) && old(block) <= block
    {
      hide WalkOn, Filling, Complete, Holds, AllFound, Described, Lasts, Shape, Outside, Fits, Filled, BlocksFor;
      m := n;
      ghost var cap, full := Cap(n, before, revoked), 0;
      FilledStart(cap);
      OutsideSelf(log, block, block);
      if committed || !open {
        return false, m;
      }
      if |list| == 0 {
        NoData(f, before, list, data, csums);
        return true, m;
      }
      var jdbBlk, curr, o, i := block, block + 1, 0, 0;
      ghost var tags: seq<Tag>, some: seq<Block>, done := [], [], before;
      NothingFilled(n, before, revoked);
      OutsideSelf(log, block, block + 1);
      NoData(f, before, list[..0], data[..0], csums[..0]);
      NoTags();
      while i < |list|
        invariant 0 <= i <= |list| && open && !committed && block == old(block) <= jdbBlk
        invariant Filling(m, jdbBlk, tags, done, some, revoked) && o == f.Off(|tags|) && curr == jdbBlk + 1 + |tags|
        invariant Lasts(tags, i == |list|)
        invariant Filled(i, cap, full, |tags|) && curr == block + 1 + i + full && (i > 0 ==> |tags| > 0)
        invariant |tags| == |some| && done + Described(f, tags, some) == before + FoundUpTo(f, list, data, csums, i)
        invariant forall k :: 0 <= k < i ==> list[k] < fsBlocks
        invariant Outside(old(log), log, old(block), curr)
      {
        f.Capacity(|tags|);
        FilledStep(i, cap, full, |tags|);
        if o + f.TagBytes() > f.Room() {
          IsComplete(m, jdbBlk, tags, done, some, revoked);
          FilledUp(i, cap, full);
          FilledStep(i, cap, full + 1, 0);
          full := full + 1;
          WriteDescriptor(jdbBlk, m, tags, done, some, revoked, old(log), old(block));
          m, done, some, tags := m + 1, done + Described(f, tags, some), [], [];
          NoData(f, done, [], [], []);
          jdbBlk, curr, o := curr, curr + 1, 0;
          StartDescriptor(m, jdbBlk, done, revoked);
          NoTags();
        }
        if list[i] >= fsBlocks {
          block := curr;
          return false, m;
        }
        var t := Tag(list[i], i == |list| - 1, data[i].magic == JFS_MAGIC_NUMBER, csums[i]);
        AddBlock(jdbBlk, curr, o, t, Escaped(data[i]), m, tags, done, some, revoked, old(log), old(block));
        LastsSnoc(tags, t);
        OneMoreFound(f, before, done, tags, some, list, data, csums, i, t);
        o := o + f.TagBytes() + if o == 0 then UUID else 0;
        tags, some := tags + [t], some + [Escaped(data[i])];
        curr := curr + 1;
        i := i + 1;
      }
      IsComplete(m, jdbBlk, tags, done, some, revoked);
      WriteDescriptor(jdbBlk, m, tags, done, some, revoked, old(log), old(block));
      m := m + 1;
      block, ok := curr, true;
      assert data[..i] == data && list[..i] == list && csums[..i] == csums;
      FilledEnd(i, cap, full, |tags|);
      NowHolds(m, before + AllFound(f, list, data, csums), revoked);
    }

    ghost function Cap(n: nat, data: seq<Found>, revoked: seq<nat>): (cap: nat)
      reads this`log, this`block
      requires Holds(n, data, revoked)
      ensures f.Valid() && cap == f.PerDescriptor() > 0
    {
      f.Capacity(0);
      f.PerDescriptor()
    }

    lemma NothingFilled(n: nat, before: seq<Found>, revoked: seq<nat>)
      requires Holds(n, before, revoked)
      ensures Shape() && start <= block && Filling(n, block, [], before, [], revoked)
    {
    }

    lemma NoTags()
      ensures Lasts([], false)
    {
    }

    lemma NowHolds(n: nat, data: seq<Found>, revoked: seq<nat>)
      requires Shape() && Fits(f, log) && start <= block && WalkOn(f, log, tid, start, n) == Walk(block, data, revoked)
      ensures Holds(n, data, revoked)
    {
    }

    lemma StartDescriptor(n: nat, p: nat, done: seq<Found>, revoked: seq<nat>)
      requires Shape() && Fits(f, log) && start <= p && WalkOn(f, log, tid, start, n) == Walk(p, done, revoked)
      ensures Filling(n, p, [], done, [], revoked) && f.Off(0) + f.TagBytes() <= f.Room()
    {
    }

    lemma IsComplete(n: nat, p: nat, tags: seq<Tag>, done: seq<Found>, some: seq<Block>, revoked: seq<nat>)
      requires Filling(n, p, tags, done, some, revoked)
      requires Lasts(tags, true) || (Lasts(tags, false) && f.Off(|tags|) + f.TagBytes() > f.Room())
      ensures Complete(f, tags)
    {
    }

    /** The state in the middle of `journal_add_revoke_to_trans`. */
    ghost predicate Revoking(n: nat, p: nat, some: seq<nat>, data: seq<Found>, done: seq<nat>)
      reads this`log, jdb
    {
      && Shape() && Fits(f, log) && start <= p && WalkOn(f, log, tid, start, n) == Walk(p, data, done)
      && Revokes(f, jdb[..], some) && EntryOff(f, |some|) <= f.Room()
    }

    method WriteRevokes(p: nat, o: nat, ghost n: nat, ghost some: seq<nat>, ghost data: seq<Found>,
                        ghost done: seq<nat>)
      requires Revoking(n, p, some, data, done) && o == EntryOff(f, |some|)
      modifies this`log, jdb
      ensures Revoking(n + 1, p + 1, [], data, done + AllRecorded(f, some))
      ensures Outside(old(log), log, p, p + 1)
    {
      hide WalkOn, AllRecorded, Entry, Be32, Revoked;
      ghost var was := jdb[..];
      PutBytes(jdb, 0, Be32(o + HEADER));
      CountKept(f, was, jdb[..], some);
      assert jdb[..][..4] == Be32(o + HEADER);
      RevokedIs(f, jdb[..], some);
      RevokeWalk(f, log, tid, start, n, p, jdb[..]);
      log := log[p := Block(JFS_MAGIC_NUMBER, JFS_REVOKE_BLOCK, tid, jdb[..])];
    }

    method AddEntry(o: nat, blk: nat, ghost n: nat, ghost p: nat, ghost some: seq<nat>, ghost data: seq<Found>,
                    ghost done: seq<nat>)
      requires Revoking(n, p, some, data, done) && o == EntryOff(f, |some|) && o + EntryBytes(f) <= f.Room()
      modifies jdb
      ensures Revoking(n, p, some + [blk], data, done) && EntryOff(f, |some| + 1) == o + EntryBytes(f)
    {
      hide WalkOn, Entry;
      ghost var was := jdb[..];
      PutBytes(jdb, o, Entry(f, blk));
      RevokesSnoc(f, was, jdb[..], some, blk);
    }

    /** `journal_add_revoke_to_trans`: a walk over the revoke blocks collects exactly the list. */
    method AddRevokes(list: seq<nat>, ghost n: nat, ghost data: seq<Found>, ghost before: seq<nat>)
      returns (ok: bool, ghost m: nat)
      requires Holds(n, data, before)
      modifies this`log, this`block, jdb
      ensures ok <==> open && !committed && forall k :: 0 <= k < |list| ==> list[k] < fsBlocks
      ensures ok ==> Holds(m, data, before + AllRecorded(f, list))
      ensures f.Valid() && (ok ==> block == old(block) + RevokeBlocks(f, |list|))
      ensures Outside(old(log), log, old(block), block) && old(block) <= block
    {
      hide WalkOn, Holds, Revoking, Shape, AllRecorded, EntryOff, Outside, Filled, BlocksFor;
      m := n;
      ghost var cap, full := EntryCap(n, data, before), 0;
      FilledStart(cap);
      OutsideSelf(log, block, block);
      if committed || !open {
        return false, m;
      }
      if |list| == 0 {
        NoEntries(f, before, list);
        return true, m;
      }
      var curr, o, i := block, REVOKE_HEADER - HEADER, 0;
      ghost var some: seq<nat>, done := [], before;
      NothingRevoked(n, data, before);
      OutsideSelf(log, block, block);
      NoEntries(f, before, list[..0]);
      NoEntries(f, before, []);
      while i < |list|
        invariant 0 <= i <= |list| && open && !committed && block == old(block) <= curr
        invariant Revoking(m, curr, some, data, done) && o == EntryOff(f, |some|)
        invariant Filled(i, cap, full, |some|) && curr == block + full && (i > 0 ==> |some| > 0)
        invariant done + AllRecorded(f, some) == before + AllRecorded(f, list[..i])
        invariant forall k :: 0 <= k < i ==> list[k] < fsBlocks
        invariant Outside(old(log), log, old(block), curr)
      {
        EntryCapacity(f, |some|);
        FilledStep(i, cap, full, |some|);
        if o + EntryBytes(f) > f.Room() {
          FilledUp(i, cap, full);
          FilledStep(i, cap, full + 1, 0);
          full := full + 1;
          ghost var log0 := log;
          WriteRevokes(curr, o, m, some, data, done);
          OutsideGrows(old(log), log0, old(block), curr, curr + 1);
          OutsideThen(old(log), log0, log, old(block), curr + 1, curr, curr + 1);
          m, done, some := m + 1, done + AllRecorded(f, some), [];
          curr, o := curr + 1, REVOKE_HEADER - HEADER;
          FirstFits(m, curr, data, done);
        }
        if list[i] >= fsBlocks {
          block := curr;
          return false, m;
        }
        AddEntry(o, list[i], m, curr, some, data, done);
        RecordedSnoc(f, done, some, list[i], before, list, i);
        o := o + EntryBytes(f);
        some := some + [list[i]];
        i := i + 1;
      }
      ghost var log1 := log;
      WriteRevokes(curr, o, m, some, data, done);
      OutsideGrows(old(log), log1, old(block), curr, curr + 1);
      OutsideThen(old(log), log1, log, old(block), curr + 1, curr, curr + 1);
      m := m + 1;
      block, ok := curr + 1, true;
      assert list[..i] == list;
      FilledEnd(i, cap, full, |some|);
      RevokedHolds(m, data, done + AllRecorded(f, some));
    }

    /** `journal_commit_trans`; `body` is what follows the three header words of the commit block. */
    method Commit(body: seq<byte>, ghost n: nat, ghost data: seq<Found>, ghost revoked: seq<nat>) returns (ok: bool)
      requires Holds(n, data, revoked) && |body| == f.blocksize - HEADER
      modifies this`log, this`block, this`open, this`committed
      ensures ok <==> old(open && !committed)
      ensures ok ==> committed && !open && block == old(block) + 1 && Fits(f, log)
      ensures ok ==> Outside(old(log), log, old(block), block)
      ensures ok ==> WalkOn(f, log, tid, start, n) == Walk(old(block), data, revoked) && old(block) in log &&
                     log[old(block)] == Block(JFS_MAGIC_NUMBER, JFS_COMMIT_BLOCK, tid, body)
    {
      hide WalkOn;
      if committed || !open {
        return false;
      }
      var commit := Block(JFS_MAGIC_NUMBER, JFS_COMMIT_BLOCK, tid, body);
      WalkFrame(f, log, log[block := commit], tid, start, n);
      log := log[block := commit];
      committed, open := true, false;
      block := block + 1;
      return true;
    }

    /**
     `journal_write` with a commit, up to `journal_close_trans`, which sets the head of the log to `head`. Nothing is
     written if the estimate does not fit before `last`. The log then holds the data and the revoked blocks, in a number
     of blocks that the lengths of the lists decide. The head is set without a scan from the estimate.
     */
    method Write(list: seq<nat>, data: seq<Block>, csums: seq<u32>, revokes: seq<nat>, body: seq<byte>, last: nat)
      returns (ok: bool, head: int, ghost n: nat)
      requires Holds(0, [], []) && open && !committed && |list| == |data| == |csums| && |body| == f.blocksize - HEADER
      requires forall k :: 0 <= k < |data| ==> |data[k].body| == f.blocksize - HEADER
      modifies this`log, this`block, this`open, this`committed, jdb
      ensures f.Valid() && (start + Guess(f, |list|, |revokes|) > last ==> !ok && unchanged(this))
      ensures ok <==> && start + Guess(f, |list|, |revokes|) <= last
                      && (forall k :: 0 <= k < |list| ==> list[k] < fsBlocks)
                      && forall k :: 0 <= k < |revokes| ==> revokes[k] < fsBlocks
      ensures ok ==> block > start && Fits(f, log) && Outside(old(log), log, start, block)
      ensures ok ==>
                WalkOn(f, log, tid, start, n) ==
                Walk(block - 1, AllFound(f, list, data, csums), AllRecorded(f, revokes))
      ensures ok ==> block - 1 in log && log[block - 1] == Block(JFS_MAGIC_NUMBER, JFS_COMMIT_BLOCK, tid, body)
      ensures ok ==> block == start + TransactionBlocks(f, |list|, |revokes|)
      ensures ok ==> (head == block <==> HeadRight(f, |list|, |revokes|))
    {
      hide WalkOn, Outside, AllFound, AllRecorded, Descriptors, RevokeBlocks, GuessedDescriptors, GuessedRevokeBlocks,
           HeadRight;
      ok, head, n := false, 0, 0;
      if start + Guess(f, |list|, |revokes|) > last {
        return;
      }
      HeadExact(f, |list|, |revokes|);
      WalkStart(f, log, tid, start);
      ghost var log0 := log;
      ok, n := AddBlocks(list, data, csums, 0, [], []);
      if !ok {
        return;
      }
      ghost var mid, log1 := block, log;
      assert [] + AllFound(f, list, data, csums) == AllFound(f, list, data, csums);
      ok, n := AddRevokes(revokes, n, AllFound(f, list, data, csums), []);
      if !ok {
        return;
      }
      assert [] + AllRecorded(f, revokes) == AllRecorded(f, revokes);
      ghost var log2, end := log, block;
      ok := Commit(body, n, AllFound(f, list, data, csums), AllRecorded(f, revokes));
      ThreeParts(log0, log1, log2, log, start, mid, end, block);
      head := start + Guess(f, |list|, |revokes|) + 1;
    }

    ghost function EntryCap(n: nat, data: seq<Found>, revoked: seq<nat>): (cap: nat)
      reads this`log, this`block
      requires Holds(n, data, revoked)
      ensures f.Valid() && cap == PerRevokeBlock(f) > 0
    {
      EntryCapacity(f, 0);
      PerRevokeBlock(f)
    }

    lemma NothingRevoked(n: nat, data: seq<Found>, before: seq<nat>)
      requires Holds(n, data, before)
      ensures Revoking(n, block, [], data, before) && EntryOff(f, 0) == REVOKE_HEADER - HEADER
    {
    }

    lemma FirstFits(n: nat, p: nat, data: seq<Found>, done: seq<nat>)
      requires Revoking(n, p, [], data, done)
      ensures EntryOff(f, 0) == REVOKE_HEADER - HEADER && EntryOff(f, 0) + EntryBytes(f) <= f.Room()
      ensures done + AllRecorded(f, []) == done
    {
    }

    lemma RevokedHolds(n: nat, data: seq<Found>, revoked: seq<nat>)
      requires Revoking(n, block, [], data, revoked)
      ensures Holds(n, data, revoked)
    {
    }
  }

  /** The estimates divide the bytes of the tags and entries by the size of a block. */
  function GuessedDescriptors(f: Format, n: nat): int
    requires f.Valid()
  {
    n * f.TagBytes() / (f.blocksize - 16 - if f.csum2 || f.csum3 then 4 else 0)
  }

  function GuessedRevokeBlocks(f: Format, n: nat): int
    requires f.Valid()
  {
    n * EntryBytes(f) / (f.blocksize - if f.csum2 || f.csum3 then 4 else 0)
  }

  /** `journal_guess_blocks`. */
  function Guess(f: Format, blocks: nat, revokes: nat): int
    requires f.Valid()
  {
    1 + GuessedRevokeBlocks(f, revokes) + GuessedDescriptors(f, blocks) + blocks
  }

  /** Each estimate is short by at least one index block, unless its list is empty. */
  lemma EstimatesShort(f: Format, n: nat, revokes: nat)
    requires f.Valid()
    ensures if n == 0 then Descriptors(f, n) == GuessedDescriptors(f, n) == 0
            else Descriptors(f, n) > GuessedDescriptors(f, n)
    ensures if revokes == 0 then RevokeBlocks(f, revokes) == GuessedRevokeBlocks(f, revokes) == 0
            else RevokeBlocks(f, revokes) > GuessedRevokeBlocks(f, revokes)
  {
    var tail := if f.csum2 || f.csum3 then 4 else 0;
    f.Capacity(0);
    EntryCapacity(f, 0);
    if n == 0 {
      FilledStart(f.PerDescriptor());
      SmallQuotient(0, f.blocksize - 16 - tail);
    } else {
      QuotientTimes(f.Room() - UUID, f.TagBytes());
      LargerBlocks(n, f.TagBytes(), f.PerDescriptor(), f.blocksize - 16 - tail);
    }
    if revokes == 0 {
      FilledStart(PerRevokeBlock(f));
      SmallQuotient(0, f.blocksize - tail);
    } else {
      QuotientTimes(f.Room() - (REVOKE_HEADER - HEADER), EntryBytes(f));
      LargerBlocks(revokes, EntryBytes(f), PerRevokeBlock(f), f.blocksize - tail);
    }
  }

  /** The index blocks of one list, and of no other, are one more than estimated. */
  predicate HeadRight(f: Format, n: nat, revokes: nat)
    requires f.Valid()
  {
    || (revokes == 0 && n > 0 && Descriptors(f, n) == 1 + GuessedDescriptors(f, n))
    || (n == 0 && revokes > 0 && RevokeBlocks(f, revokes) == 1 + GuessedRevokeBlocks(f, revokes))
  }

  /** The head set from the estimate is right exactly then: never with both lists, and never with none. */
  lemma HeadExact(f: Format, n: nat, revokes: nat)
    requires f.Valid()
    ensures Guess(f, n, revokes) + 1 == TransactionBlocks(f, n, revokes) <==> HeadRight(f, n, revokes)
  {
    hide Descriptors, RevokeBlocks, GuessedDescriptors, GuessedRevokeBlocks;
    EstimatesShort(f, n, revokes);
  }

  /**
   The test for space is made with the estimate, too. It is enough exactly when nothing but the commit block is written:
   any other transaction, opened where the estimate just fits, ends behind the last block of the log.
   */
  lemma SpaceExact(f: Format, n: nat, revokes: nat)
    requires f.Valid()
    ensures TransactionBlocks(f, n, revokes) <= Guess(f, n, revokes) <==> n == 0 && revokes == 0
  {
    hide Descriptors, RevokeBlocks, GuessedDescriptors, GuessedRevokeBlocks;
    EstimatesShort(f, n, revokes);
  }

  /**
   For lists that need at most one block each the estimate is right exactly when one is empty and the other is not.
   */
  lemma SmallGuess(f: Format, n: nat, revokes: nat)
    requires f.Valid() && n <= f.PerDescriptor() && revokes <= PerRevokeBlock(f)
    ensures HeadRight(f, n, revokes) <==> (n > 0) != (revokes > 0)
  {
    f.Capacity(0);
    EntryCapacity(f, 0);
    OneBlock(n, f.PerDescriptor());
    OneBlock(revokes, PerRevokeBlock(f));
    assert GuessedDescriptors(f, n) == 0 by {
      AtMostQuotient(n, f.Room() - UUID, f.TagBytes());
      SmallQuotient(n * f.TagBytes(), f.blocksize - 16 - if f.csum2 || f.csum3 then 4 else 0);
    }
    assert GuessedRevokeBlocks(f, revokes) == 0 by {
      AtMostQuotient(revokes, f.Room() - (REVOKE_HEADER - HEADER), EntryBytes(f));
      SmallQuotient(revokes * EntryBytes(f), f.blocksize - if f.csum2 || f.csum3 then 4 else 0);
    }
  }

  lemma OneBlock(n: nat, cap: nat)
    requires cap > 0 && n <= cap
    ensures BlocksFor(n, cap) == if n == 0 then 0 else 1
  {
    FilledStart(cap);
    if n > 0 {
      FilledEnd(n, cap, 0, n);
    }
  }

  lemma ThreeParts(a: Log, b: Log, c: Log, d: Log, start: nat, mid: nat, end: nat, last: nat)
    requires Outside(a, b, start, mid) && Outside(b, c, mid, end) && Outside(c, d, end, last)
    requires start <= mid <= end <= last
    ensures Outside(a, d, start, last)
  {
    OutsideGrows(a, b, start, mid, end);
    OutsideThen(a, b, c, start, end, mid, end);
    OutsideGrows(a, c, start, end, last);
    OutsideThen(a, c, d, start, last, end, last);
  }

  lemma NoEntries(f: Format, before: seq<nat>, list: seq<nat>)
    requires list == []
    ensures AllRecorded(f, list) == [] && before + AllRecorded(f, list) == before
  {
  }

  lemma RecordedSnoc(f: Format, done: seq<nat>, some: seq<nat>, blk: nat, before: seq<nat>, list: seq<nat>, i: nat)
    requires i < |list| && list[i] == blk
    requires done + AllRecorded(f, some) == before + AllRecorded(f, list[..i])
    ensures done + AllRecorded(f, some + [blk]) == before + AllRecorded(f, list[..i + 1])
  {
    AllRecordedStep(f, list, i);
    AllRecordedStep(f, some + [blk], |some|);
    assert (some + [blk])[..|some| + 1] == some + [blk] && (some + [blk])[..|some|] == some;
    hide AllRecorded;
    var r := [Recorded(f, blk)];
    assert done + (AllRecorded(f, some) + r) == (done + AllRecorded(f, some)) + r;
    assert before + (AllRecorded(f, list[..i]) + r) == (before + AllRecorded(f, list[..i])) + r;
  }

  lemma EntryApart(f: Format, j: nat, k: nat)
    requires j < k
    ensures EntryOff(f, j) + EntryBytes(f) <= EntryOff(f, k)
  {
  }

  /** Storing the count in front leaves the entries alone. */
  lemma CountKept(f: Format, was: seq<byte>, now: seq<byte>, list: seq<nat>)
    requires Revokes(f, was, list) && |was| == |now| && forall x :: 4 <= x < |was| ==> now[x] == was[x]
    ensures Revokes(f, now, list)
  {
    hide Entry;
    forall k | 0 <= k < |list|
      ensures EntryOff(f, k) + EntryBytes(f) <= |now|
      ensures now[EntryOff(f, k)..EntryOff(f, k) + EntryBytes(f)] == Entry(f, list[k])
    {
      var o := EntryOff(f, k);
      assert now[o..o + EntryBytes(f)] == was[o..o + EntryBytes(f)];
    }
  }

  lemma RevokesSnoc(f: Format, was: seq<byte>, now: seq<byte>, list: seq<nat>, blk: nat)
    requires Revokes(f, was, list) && |was| == |now| && EntryOff(f, |list|) + EntryBytes(f) <= |was|
    requires forall x :: 0 <= x < |was| ==>
                           now[x] == if EntryOff(f, |list|) <= x < EntryOff(f, |list|) + EntryBytes(f)
                                     then Entry(f, blk)[x - EntryOff(f, |list|)] else was[x]
    ensures Revokes(f, now, list + [blk])
  {
    hide Entry;
    var more := list + [blk];
    forall k | 0 <= k < |more|
      ensures EntryOff(f, k) + EntryBytes(f) <= |now|
      ensures now[EntryOff(f, k)..EntryOff(f, k) + EntryBytes(f)] == Entry(f, more[k])
    {
      var o := EntryOff(f, k);
      if k < |list| {
        EntryApart(f, k, |list|);
        assert now[o..o + EntryBytes(f)] == was[o..o + EntryBytes(f)];
      } else {
        assert now[o..o + EntryBytes(f)] == Entry(f, blk);
      }
    }
  }

  /**
   Writing a transaction and scanning the log from its start: writer and scanner agree on where it ends. `first` and
   `last` bound the log.
   */
  method WriteThenFind(t: Transaction, list: seq<nat>, data: seq<Block>, csums: seq<u32>, revokes: seq<nat>,
                       body: seq<byte>, first: nat, last: nat)
    returns (ok: bool, found: bool, id: nat, head: nat)
    requires t.Holds(0, [], []) && t.open && !t.committed && |list| == |data| == |csums|
    requires |body| == t.f.blocksize - HEADER
    requires forall k :: 0 <= k < |data| ==> |data[k].body| == t.f.blocksize - HEADER
    requires first < last && first <= t.start && t.tid < 0x1_0000_0000 && t.f.Valid()
    modifies t`log, t`block, t`open, t`committed, t.jdb
    ensures ok <==> && t.start + Guess(t.f, |list|, |revokes|) <= last
                    && (forall k :: 0 <= k < |list| ==> list[k] < t.fsBlocks)
                    && forall k :: 0 <= k < |revokes| ==> revokes[k] < t.fsBlocks
    ensures var end := t.start + TransactionBlocks(t.f, |list|, |revokes|);
      var e, next := Round(first, last, end), (t.tid + 1) % 0x1_0000_0000;
      ok && end <= last && (e == t.start || Stops(old(t.log), e, next)) ==> found && id == next && head == e
    ensures !ok ==> !found
  {
    hide WalkOn, Turns, Outside, AllFound, AllRecorded, TransactionBlocks, Descriptors, RevokeBlocks, Round, Committed,
         Length, Follow, EndOf;
    ghost var n;
    ghost var log0 := t.log;
    var guess;
    ok, guess, n := t.Write(list, data, csums, revokes, body, last);
    found, id, head := false, 0, 0;
    var end, next := t.start + TransactionBlocks(t.f, |list|, |revokes|), (t.tid + 1) % 0x1_0000_0000;
    if ok && end <= last {
      var e := Round(first, last, end);
      AtTheEnd(first, last, end);
      if e == t.start {
        OwnStart(t.f, t.log, t.tid, t.start, n);
      } else {
        StillThere(log0, t.log, t.start, end, e);
      }
      if Stops(t.log, e, next) {
        StraightIsRound(t.f, t.log, first, last, t.tid, t.start, n);
        ghost var turns := ScanFindsHead(t.f, t.log, first, last, t.tid, t.start, [n]);
        found, id, head := FindHead(t.f, t.log, first, last, t.tid, t.start, turns);
      }
    }
  }

  lemma AtTheEnd(first: nat, last: nat, end: nat)
    requires first < last && first <= end <= last
    ensures Round(first, last, end) == if end == last then first else end
  {
  }

  /** A transaction that lies straight in the log is one of the round log. */
  lemma StraightIsRound(f: Format, log: Log, first: nat, last: nat, tid: nat, start: nat, n: nat)
    requires f.Valid() && first <= start && Fits(f, log) && WalkOn(f, log, tid, start, n).Walk?
    requires var c := WalkOn(f, log, tid, start, n).next;
      && start <= c < last && c in log && log[c].magic == JFS_MAGIC_NUMBER
      && log[c].blocktype == JFS_COMMIT_BLOCK && log[c].sequence == tid
    ensures Follow(f, log, first, last, tid, start, [n])
    ensures EndOf(f, log, first, last, tid, start, [n]) ==
            Round(first, last, WalkOn(f, log, tid, start, n).next + 1)
  {
    hide WalkOn, Unrolled, Round;
    var u, c := Unrolled(log, first, last, start), WalkOn(f, log, tid, start, n).next;
    UnrolledFits(f, log, first, last, start);
    forall i | start <= i <= c && i in log
      ensures i in u && u[i] == log[i]
    {
      UnrolledAt(log, first, last, start, i);
      RoundInside(first, last, i);
    }
    WalkFrame(f, log, u, tid, start, n);
    assert [n][1..] == [];
    RoundIn(first, last, c + 1);
    var e := Round(first, last, c + 1);
    assert Follow(f, log, first, last, (tid + 1) % 0x1_0000_0000, e, []);
  }

  /** A log that comes round to the transaction's own start does not continue there. */
  lemma OwnStart(f: Format, log: Log, tid: nat, start: nat, n: nat)
    requires f.Valid() && Fits(f, log) && tid < 0x1_0000_0000 && WalkOn(f, log, tid, start, n).Walk?
    requires var c := WalkOn(f, log, tid, start, n).next; c in log && log[c].sequence == tid
    ensures Stops(log, start, (tid + 1) % 0x1_0000_0000)
  {
    if n > 0 {
      FirstOfWalk(f, log, tid, start, n);
    }
  }

  lemma {:induction false} FirstOfWalk(f: Format, log: Log, tid: nat, start: nat, n: nat)
    requires f.Valid() && Fits(f, log) && n > 0 && WalkOn(f, log, tid, start, n).Walk?
    ensures start in log && log[start].sequence == tid
  {
    if n == 1 {
      assert WalkOn(f, log, tid, start, 0) == Walk(start, [], []);
    } else {
      FirstOfWalk(f, log, tid, start, n - 1);
    }
  }

  lemma StillThere(was: Log, now: Log, lo: nat, hi: nat, e: nat)
    requires Outside(was, now, lo, hi)
    ensures e < lo || hi <= e ==> (e in now <==> e in was) && (e in now ==> now[e] == was[e])
  {
  }
}
