/** Directory blocks as e2fsck pass 2 sees them: entries that must tile the block (e2fsck-patch/e2fsck/pass2.c). */
module DirBlock {
  import opened Bytes

  const HEADER_LEN := 8   // inode (4), rec_len (2), name_len (1), file type (1)
  const MIN_ENTRY := 12

  /** A block under 64K, where rec_len is a plain 16-bit field. */
  predicate BlockSize(n: nat) { MIN_ENTRY <= n < 0x1_0000 && n % 4 == 0 }

  function RecLen(s: seq<byte>, o: nat): (r: nat)
    requires o + HEADER_LEN <= |s|
    ensures r < 0x1_0000
  {
    s[o + 4] as int + 256 * s[o + 5] as int
  }

  function NameLen(s: seq<byte>, o: nat): nat
    requires o + HEADER_LEN <= |s|
  {
    s[o + 6]
  }

  function Inode(s: seq<byte>, o: nat): nat
    requires o + HEADER_LEN <= |s|
  {
    s[o] as int + 256 * (s[o + 1] as int + 256 * (s[o + 2] as int + 256 * s[o + 3] as int))
  }

  /** The tests that an entry at `o` must pass to be left alone. */
  predicate Sound(s: seq<byte>, o: nat) {
    && o + HEADER_LEN <= |s|
    && var r := RecLen(s, o);
       o + r <= |s| && r >= MIN_ENTRY && r % 4 == 0 && NameLen(s, o) + HEADER_LEN <= r
  }

  /** Sound entries follow each other from `from` to exactly `end`. */
  predicate Tiled(s: seq<byte>, from: nat, end: nat)
    requires from <= end <= |s|
    decreases end - from
  {
    from == end || (Sound(s, from) && from + RecLen(s, from) <= end && Tiled(s, from + RecLen(s, from), end))
  }

  /** Sound entries up to `end`, the last of them at `last`. */
  predicate TiledLast(s: seq<byte>, last: nat, end: nat) {
    last < end <= |s| && Sound(s, last) && last + RecLen(s, last) == end && Tiled(s, 0, last)
  }

  lemma {:induction false} TiledFrame(s: seq<byte>, t: seq<byte>, from: nat, end: nat)
    requires from <= end <= |s| && |s| == |t| && forall i :: from <= i < end ==> s[i] == t[i]
    ensures Tiled(s, from, end) ==> Tiled(t, from, end)
    decreases end - from
  {
    if from < end && Tiled(s, from, end) {
      TiledFrame(s, t, from + RecLen(s, from), end);
    }
  }

  lemma {:induction false} TiledAppend(s: seq<byte>, from: nat, mid: nat, end: nat)
    requires from <= mid <= end <= |s| && Tiled(s, from, mid) && Tiled(s, mid, end)
    ensures Tiled(s, from, end)
    decreases mid - from
  {
    if from == mid {
    } else {
      TiledAppend(s, from + RecLen(s, from), mid, end);
    }
  }

  lemma LastTiles(s: seq<byte>, last: nat, end: nat)
    requires TiledLast(s, last, end)
    ensures Tiled(s, 0, end)
  {
    assert Tiled(s, end, end);
    TiledAppend(s, 0, last, end);
  }

  /* ----- edits ----- */

  /** `ext2fs_set_rec_len` for blocks under 64K: refuses a length beyond the block or not a multiple of 4. */
  function SetRecLen(s: seq<byte>, o: nat, len: nat): (t: seq<byte>)
    requires o + HEADER_LEN <= |s|
    ensures |t| == |s|
  {
    if len > |s| || len % 4 != 0 || len >= 0x1_0000 then s
    else s[o + 4 := len % 256][o + 5 := len / 256]
  }

  function Zeros(n: nat): (z: seq<byte>)
    ensures |z| == n
  {
    seq(n, _ => 0)
  }

  /** No NUL among the first `len` bytes of the name at `o`. */
  predicate NameIsWhole(s: seq<byte>, o: nat, len: nat)
    requires o + HEADER_LEN + len <= |s|
  {
    0 !in s[o + HEADER_LEN..o + HEADER_LEN + len]
  }

  /** The rest of the block moves up over the 8 bytes at `o`; the last 8 bytes become zero. */
  function CloseHole(s: seq<byte>, o: nat): (t: seq<byte>)
    requires o + HEADER_LEN <= |s|
    ensures |t| == |s|
    ensures forall i :: 0 <= i < |s| ==>
              t[i] == if i < o then s[i] else if i < |s| - HEADER_LEN then s[i + HEADER_LEN] else 0
  {
    s[..o] + s[o + HEADER_LEN..] + Zeros(HEADER_LEN)
  }

  /** An empty, unnamed entry over the rest of the block. */
  function BlankEntry(s: seq<byte>, o: nat): (t: seq<byte>)
    requires o + HEADER_LEN <= |s|
    ensures |t| == |s|
  {
    SetRecLen(s, o, |s| - o)[o + 6 := 0][o + 7 := 0][o := 0][o + 1 := 0][o + 2 := 0][o + 3 := 0]
  }

  datatype Salvaged = Salvaged(block: seq<byte>, offset: nat)

  /**
   What `salvage_directory` does to the unsound entry at `o`, whose predecessor is at `prev` (none if
   negative): close an 8-byte hole, shorten an entry that overruns the block, let the predecessor absorb it, or
   give up on the rest of the block.
   */
  function Salvage(s: seq<byte>, o: nat, prev: int, inodes: nat): (r: Salvaged)
    requires o < |s| && (prev >= 0 || o + HEADER_LEN <= |s|) && prev + HEADER_LEN <= |s|
    ensures |r.block| == |s|
  {
    var room := |s| - o;
    var nameLen := if room < HEADER_LEN then 0 else NameLen(s, o);
    var recLen := if room < HEADER_LEN then room else RecLen(s, o);
    var left := room - recLen;
    if left >= MIN_ENTRY && recLen == HEADER_LEN then
      Salvaged(CloseHole(s, o), o)
    else if left < 0 && room > HEADER_LEN && nameLen + HEADER_LEN <= room && Inode(s, o) <= inodes &&
            NameIsWhole(s, o, nameLen) then
      Salvaged(SetRecLen(s, o, room), o)
    else if prev >= 0 && recLen > 0 && recLen % 4 == 0 && recLen <= room then
      Salvaged(SetRecLen(s, prev, RecLen(s, prev) + recLen), o + recLen)
    else if prev >= 0 then
      Salvaged(SetRecLen(s, prev, RecLen(s, prev) + room), |s|)
    else
      Salvaged(BlankEntry(s, o), o)
  }

  /* ----- what salvaging keeps, and why it ends ----- */

  /** The loop's state: everything before `o` is tiled, and `prev` is the last entry there. */
  predicate At(s: seq<byte>, o: nat, prev: int) {
    && o % 4 == 0 && o <= |s|
    && if prev < 0 then o == 0 else TiledLast(s, prev, o)
  }

  /** The length of the block without its trailing zero bytes. */
  function Extent(s: seq<byte>): (n: nat)
    ensures n <= |s|
    ensures forall i :: n <= i < |s| ==> s[i] == 0
    ensures n > 0 ==> s[n - 1] != 0
  {
    if s == [] || s[|s| - 1] != 0 then |s| else Extent(s[..|s| - 1])
  }

  /** Zero at a sound entry, and falling with every salvage that does not move on. */
  function Unsoundness(s: seq<byte>, o: nat): nat {
    if Sound(s, o) then 0 else 1 + Extent(s)
  }

  lemma {:induction false} HoleShrinks(s: seq<byte>, o: nat)
    requires o + HEADER_LEN + MIN_ENTRY <= |s| && RecLen(s, o) == HEADER_LEN
    ensures Extent(CloseHole(s, o)) < Extent(s)
  {
    hide Extent;
    assert s[o + 4] != 0;
    var t := CloseHole(s, o);
    if Extent(t) > o {
      var k := Extent(t) - 1;
      assert t[k] != 0 && k < |s| - HEADER_LEN && s[k + HEADER_LEN] == t[k];
    }
  }

  /** The predecessor absorbs `r` bytes. */
  lemma Absorbed(s: seq<byte>, prev: nat, o: nat, r: nat)
    requires BlockSize(|s|) && TiledLast(s, prev, o) && o % 4 == 0 && r % 4 == 0 && o + r <= |s|
    ensures TiledLast(SetRecLen(s, prev, RecLen(s, prev) + r), prev, o + r)
  {
    hide Tiled, SetRecLen;
    var len := RecLen(s, prev) + r;
    LengthSet(s, prev, len);
    TiledFrame(s, SetRecLen(s, prev, len), 0, prev);
  }

  lemma LengthSet(s: seq<byte>, o: nat, len: nat)
    requires o + HEADER_LEN <= |s| && len <= |s| < 0x1_0000 && len % 4 == 0
    ensures var t := SetRecLen(s, o, len);
      RecLen(t, o) == len && forall i :: 0 <= i < |s| && i != o + 4 && i != o + 5 ==> t[i] == s[i]
  {
  }

  /** An entry whose length is set to the rest of the block is sound if its name fits. */
  lemma FillsBlock(s: seq<byte>, t: seq<byte>, o: nat)
    requires BlockSize(|s|) && o % 4 == 0 && o + MIN_ENTRY <= |s|
    requires t == BlankEntry(s, o) || (t == SetRecLen(s, o, |s| - o) && NameLen(s, o) + HEADER_LEN <= |s| - o)
    ensures Sound(t, o) && t[..o] == s[..o] && |t| == |s|
  {
    assert RecLen(t, o) == |s| - o;
    assert NameLen(t, o) == 0 || NameLen(t, o) == NameLen(s, o);
  }

  /** A salvage that stays at the same entry removes a hole or makes the entry sound. */
  lemma SalvageStays(s: seq<byte>, o: nat, prev: int, inodes: nat)
    requires BlockSize(|s|) && At(s, o, prev) && o < |s| && !Sound(s, o)
    requires Salvage(s, o, prev, inodes).offset == o
    ensures var t := Salvage(s, o, prev, inodes).block;
      |t| == |s| && t[..o] == s[..o] && Unsoundness(t, o) < Unsoundness(s, o)
  {
    hide Extent, Tiled, SetRecLen, BlankEntry, CloseHole, NameIsWhole, Inode, Sound;
    var t := Salvage(s, o, prev, inodes).block;
    StaysHow(s, o, prev, inodes);
    if |s| - o - RecLen(s, o) >= MIN_ENTRY && RecLen(s, o) == HEADER_LEN {
      HoleShrinks(s, o);
      HoleKeepsFront(s, o);
    } else {
      FillsBlock(s, t, o);
    }
  }

  lemma HoleKeepsFront(s: seq<byte>, o: nat)
    requires o + HEADER_LEN <= |s|
    ensures CloseHole(s, o)[..o] == s[..o]
  {
  }

  /** The three ways of staying, two of which give the entry the rest of the block. */
  lemma StaysHow(s: seq<byte>, o: nat, prev: int, inodes: nat)
    requires BlockSize(|s|) && At(s, o, prev) && o < |s| && !Sound(s, o)
    requires Salvage(s, o, prev, inodes).offset == o
    ensures var t := Salvage(s, o, prev, inodes).block;
      && o + HEADER_LEN <= |s|
      && if |s| - o - RecLen(s, o) >= MIN_ENTRY && RecLen(s, o) == HEADER_LEN then t == CloseHole(s, o)
         else o + MIN_ENTRY <= |s| &&
              (t == BlankEntry(s, o) || (t == SetRecLen(s, o, |s| - o) && NameLen(s, o) + HEADER_LEN <= |s| - o))
  {
    hide Extent, Tiled, SetRecLen, BlankEntry, CloseHole, NameIsWhole, Inode;
  }

  /** A salvage that moves on lets the previous entry absorb the bytes in between. */
  lemma SalvageMoves(s: seq<byte>, o: nat, prev: int, inodes: nat)
    requires BlockSize(|s|) && At(s, o, prev) && o < |s| && !Sound(s, o)
    requires Salvage(s, o, prev, inodes).offset != o
    ensures var r := Salvage(s, o, prev, inodes);
      && prev >= 0 && o < r.offset <= |s| && r.offset % 4 == 0
      && r.block == SetRecLen(s, prev, RecLen(s, prev) + r.offset - o)
  {
    hide Extent, TiledLast, SetRecLen, BlankEntry, CloseHole, NameIsWhole, Inode, NameLen, RecLen, Sound;
  }

  /** Salvaging an unsound entry keeps the loop's state and makes progress. */
  lemma SalvageStep(s: seq<byte>, o: nat, prev: int, inodes: nat)
    requires BlockSize(|s|) && At(s, o, prev) && o < |s| && !Sound(s, o)
    ensures var r := Salvage(s, o, prev, inodes);
      && At(r.block, r.offset, prev)
      && o <= r.offset && (r.offset == o ==> Unsoundness(r.block, o) < Unsoundness(s, o))
  {
    hide Salvage, Unsoundness, Tiled, SetRecLen;
    var r := Salvage(s, o, prev, inodes);
    if r.offset == o {
      SalvageStays(s, o, prev, inodes);
      if prev >= 0 {
        SamePrefix(s, r.block, o, prev);
      }
    } else {
      SalvageMoves(s, o, prev, inodes);
      Absorbed(s, prev, o, r.offset - o);
    }
  }

  lemma SamePrefix(s: seq<byte>, t: seq<byte>, o: nat, prev: nat)
    requires |s| == |t| && TiledLast(s, prev, o) && s[..o] == t[..o]
    ensures TiledLast(t, prev, o)
  {
    assert forall i :: 0 <= i < o ==> s[..o][i] == s[i] && t[..o][i] == t[i];
    assert s[0..prev] == t[0..prev];
    TiledFrame(s, t, 0, prev);
  }
}
