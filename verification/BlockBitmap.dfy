/** Reconciling the block bitmap with what the passes found (e2fsck-patch/e2fsck/pass5.c). */
module BlockBitmap {
  import opened Arithmetic

  /** How many numbers from `lo` up to `hi` are clear in the bitmap. */
  function Clear(bits: set<nat>, lo: nat, hi: nat): (n: nat)
    ensures n <= if lo <= hi then hi - lo else 0
    decreases hi
  {
    if hi <= lo then 0 else Clear(bits, lo, hi - 1) + if hi - 1 in bits then 0 else 1
  }

  ghost predicate Agree(a: set<nat>, b: set<nat>, lo: nat, hi: nat) {
    forall x :: lo <= x < hi ==> (x in a <==> x in b)
  }

  lemma {:induction false} ClearAgree(a: set<nat>, b: set<nat>, lo: nat, hi: nat)
    requires Agree(a, b, lo, hi)
    ensures Clear(a, lo, hi) == Clear(b, lo, hi)
  {
    if hi <= lo {
    } else {
      assert Agree(a, b, lo, hi - 1);
      ClearAgree(a, b, lo, hi - 1);
    }
  }

  lemma {:induction false} ClearSplit(bits: set<nat>, lo: nat, mid: nat, hi: nat)
    requires lo <= mid <= hi
    ensures Clear(bits, lo, hi) == Clear(bits, lo, mid) + Clear(bits, mid, hi)
    decreases hi
  {
    if mid == hi {
    } else {
      ClearSplit(bits, lo, mid, hi - 1);
    }
  }

  /** `memcmp` of `nbytes` bytes of two bitmaps. */
  predicate SameBytes(a: set<nat>, b: set<nat>, lo: nat, nbytes: nat) {
    forall x :: lo <= x < lo + 8 * nbytes ==> (x in a <==> x in b)
  }

  /** `ext2fs_bitcount` of `nbytes` bytes. */
  function BitCount(bits: set<nat>, lo: nat, nbytes: nat): (n: nat)
    ensures n <= 8 * nbytes && n == 8 * nbytes - Clear(bits, lo, lo + 8 * nbytes)
  {
    8 * nbytes - Clear(bits, lo, lo + 8 * nbytes)
  }

  /** The blocks `start .. start + count`. */
  datatype Range = Range(start: nat, count: nat)

  ghost predicate Avoids(ranges: seq<Range>, bits: set<nat>) {
    forall k, x :: 0 <= k < |ranges| && ranges[k].start <= x < ranges[k].start + ranges[k].count ==> x !in bits
  }

  /** The block lies in one of the ranges. */
  ghost predicate Covered(ranges: seq<Range>, x: nat) {
    exists k :: 0 <= k < |ranges| && ranges[k].start <= x < ranges[k].start + ranges[k].count
  }

  lemma CoveredMore(ranges: seq<Range>, r: Range)
    ensures forall x :: Covered(ranges, x) ==> Covered(ranges + [r], x)
    ensures forall x :: r.start <= x < r.start + r.count ==> Covered(ranges + [r], x)
  {
    var more := ranges + [r];
    forall x: nat | Covered(ranges, x)
      ensures Covered(more, x)
    {
      var k :| 0 <= k < |ranges| && ranges[k].start <= x < ranges[k].start + ranges[k].count;
      assert more[k] == ranges[k];
    }
    forall x: nat | r.start <= x < r.start + r.count
      ensures Covered(more, x)
    {
      assert more[|ranges|] == r;
    }
  }

  function Sum(counts: seq<nat>): nat {
    if counts == [] then 0 else Sum(counts[..|counts| - 1]) + counts[|counts| - 1]
  }

  class BlockBitmaps {
    const firstBlock: nat
    const blockCount: nat
    const perGroup: nat
    const groupCount: nat
    const found: set<nat>
    /** `ext2fs_test_changed`. */
    const changed: bool
    /** The ranges whose discarding fails. */
    const refused: set<Range>
    var blockMap: set<nat>
    var discard: bool
    var discards: seq<Range>
    const freeArray: array<nat>

    var group: nat
    var blocks: nat
    var freeBlocks: nat
    var groupFree: nat
    var firstFree: nat
    var problems: nat

    /** Whether discarding was on when the scan began. */
    ghost var wanted: bool

    constructor (firstBlock: nat, blockCount: nat, perGroup: nat, groupCount: nat, found: set<nat>, blockMap: set<nat>,
                 changed: bool, discard: bool, refused: set<Range>)
      ensures this.firstBlock == firstBlock && this.blockCount == blockCount && this.perGroup == perGroup
      ensures this.groupCount == groupCount && this.found == found && this.blockMap == blockMap
      ensures freeArray.Length == groupCount && discards == []
    {
      this.firstBlock, this.blockCount, this.perGroup, this.groupCount := firstBlock, blockCount, perGroup, groupCount;
      this.found, this.blockMap, this.changed, this.discard := found, blockMap, changed, discard;
      discards, freeArray, this.refused, wanted := [], new nat[groupCount], refused, discard;
      group, blocks, freeBlocks, groupFree, firstFree, problems := 0, 0, 0, 0, blockCount, 0;
    }

    ghost function Lo(g: nat): (r: nat)
      ensures r >= firstBlock
    {
      firstBlock + g * perGroup
    }

    ghost function Hi(g: nat): nat {
      if Lo(g + 1) < blockCount then Lo(g + 1) else blockCount
    }

    /** The groups cover the blocks, and only the last may be short. */
    ghost predicate Shape() {
      && firstBlock < blockCount && perGroup > 0 && perGroup % 8 == 0 && groupCount > 0
      && Lo(groupCount - 1) < blockCount <= Lo(groupCount) && freeArray.Length == groupCount
    }

    lemma LoStep(g: nat)
      ensures Lo(g + 1) == Lo(g) + perGroup
    {
    }

    lemma {:induction false} LoMonotone(g: nat, h: nat)
      requires g <= h
      ensures Lo(g) <= Lo(h)
      decreases h
    {
      if g == h {
      } else {
        LoStep(h - 1);
        LoMonotone(g, h - 1);
      }
    }

    lemma GroupExists(g: nat)
      requires Shape() && Lo(g) < blockCount
      ensures g < groupCount
      ensures g < groupCount - 1 ==> Lo(g + 1) < blockCount
      ensures g == groupCount - 1 ==> blockCount <= Lo(g + 1)
    {
      hide Lo;
      if groupCount <= g {
        LoMonotone(groupCount, g);
      } else if g < groupCount - 1 {
        LoMonotone(g + 1, groupCount - 1);
      }
    }

    /** The map a scan looks at: after a repair the blocks themselves. */
    ghost function Seen(redo: bool): set<nat>
      reads this`blockMap
    {
      if redo then found else blockMap
    }

    ghost predicate At(i: nat)
      reads this`group, this`blocks
    {
      if i < blockCount then
        i == Lo(group) + blocks && blocks < perGroup && group < groupCount && firstBlock <= i
      else
        i == blockCount && group == groupCount && blocks == 0
    }

    ghost predicate Counted(i: nat, seen: set<nat>)
      reads this`freeBlocks, this`groupFree, this`group, freeArray
      requires freeArray.Length == groupCount && group <= groupCount
    {
      && freeBlocks == Clear(seen, firstBlock, i)
      && groupFree == (if i < blockCount then Clear(seen, Lo(group), i) else 0)
      && Done(seen)
    }

    /** The groups that have been finished. */
    ghost predicate Done(seen: set<nat>)
      reads this`group, freeArray
      requires freeArray.Length == groupCount && group <= groupCount
    {
      forall g :: 0 <= g < group ==> freeArray[g] == Clear(seen, Lo(g), Hi(g))
    }

    ghost predicate Run(i: nat, seen: set<nat>)
      reads this`firstFree
    {
      || firstFree == blockCount
      || (i < blockCount && firstBlock <= firstFree < i && forall b :: firstFree <= b < i ==> b !in seen)
    }

    ghost predicate Careful(i: nat, seen: set<nat>)
      reads this`problems, this`discard, this`discards, this`wanted
    {
      && (problems == 0 <==> Agree(seen, found, firstBlock, i))
      && (problems > 0 ==> !discard)
      && (wanted && !discard ==> problems > 0 || changed || Refused(discards))
      && (discard ==> wanted && !Refused(discards))
      && Avoids(discards, found)
    }

    ghost predicate Refused(ds: seq<Range>) {
      exists k :: 0 <= k < |ds| && ds[k] in refused
    }

    lemma RefusedMore(d: Range)
      ensures Refused(discards + [d]) <==> Refused(discards) || d in refused
    {
      var more := discards + [d];
      assert forall k :: 0 <= k < |discards| ==> more[k] == discards[k];
      assert more[|discards|] == d;
    }

    /** While the option is on, every free block in front of the current run has been discarded. */
    ghost predicate Spent(i: nat, seen: set<nat>)
      reads this`discard, this`discards, this`firstFree
    {
      discard ==> forall b :: firstBlock <= b < i && b < firstFree && b !in seen ==> Covered(discards, b)
    }

    ghost predicate Inv(i: nat, redo: bool)
      reads this, freeArray
    {
      && Shape() && group <= groupCount && At(i)
      && Counted(i, Seen(redo)) && Run(i, Seen(redo)) && Careful(i, Seen(redo)) && Spent(i, Seen(redo))
    }

    /** `e2fsck_discard_blocks`: a failing discard turns the option off. */
    method DiscardBlocks(start: nat, count: nat)
      requires Avoids(discards, found)
      requires discard ==> forall b :: start <= b < start + count ==> b !in found
      modifies this`discard, this`discards
      ensures Avoids(discards, found) && (discard ==> old(discard) && !changed)
      ensures discards == if old(discard) && !changed then old(discards) + [Range(start, count)] else old(discards)
      ensures old(discard) && !discard ==> changed || Refused(discards)
      ensures Refused(discards) ==> !discard || old(Refused(discards))
      ensures old(Refused(discards)) ==> Refused(discards)
    {
      if changed {
        discard := false;
      }
      if discard {
        var d := Range(start, count);
        RefusedMore(d);
        discards := discards + [d];
        if d in refused {
          discard := false;
        }
      }
    }

    /** The end of a group at block `j`. */
    method NextGroup(ghost j: nat, ghost seen: set<nat>)
      requires Shape() && group < groupCount && j == Hi(group) && Lo(group) <= j
      requires freeBlocks == Clear(seen, firstBlock, j) && groupFree == Clear(seen, Lo(group), j)
      requires Done(seen)
      modifies this`group, this`blocks, this`groupFree, this`firstFree, freeArray
      ensures group <= groupCount && At(j) && Counted(j, seen) && firstFree == blockCount
    {
      hide Clear, Lo, Hi;
      firstFree := blockCount;
      freeArray[group] := groupFree;
      GroupEnds(group);
      GroupEmpty(group + 1, seen);
      group := group + 1;
      blocks, groupFree := 0, 0;
    }

    lemma GroupEmpty(g: nat, seen: set<nat>)
      ensures Clear(seen, Lo(g), Lo(g)) == 0
    {
    }

    lemma GroupEnds(g: nat)
      requires Shape() && g < groupCount
      ensures if Hi(g) < blockCount then Hi(g) == Lo(g + 1) && g + 1 < groupCount
              else Hi(g) == blockCount && g + 1 == groupCount
    {
      hide Lo;
      LoMonotone(g, groupCount - 1);
      GroupExists(g);
    }

    /** The groups together have the free blocks of the whole map. */
    lemma {:induction false} GroupsAddUp(counts: seq<nat>, bits: set<nat>)
      requires Shape() && |counts| <= groupCount
      requires forall g :: 0 <= g < |counts| ==> counts[g] == Clear(bits, Lo(g), Hi(g))
      ensures Sum(counts) == Clear(bits, firstBlock, if |counts| == groupCount then blockCount else Lo(|counts|))
    {
      hide Clear, Lo, Hi;
      if counts == [] {
        assert Lo(0) == firstBlock && Clear(bits, firstBlock, firstBlock) == 0 by {
          GroupEmpty(0, bits);
          LoZero();
        }
      } else {
        var g := |counts| - 1;
        GroupsAddUp(counts[..g], bits);
        GroupEnds(g);
        LoBelowHi(g);
        ClearSplit(bits, firstBlock, Lo(g), Hi(g));
      }
    }

    lemma LoZero()
      ensures Lo(0) == firstBlock
    {
    }

    lemma LoBelowHi(g: nat)
      requires Shape() && g < groupCount
      ensures Lo(g) <= Hi(g)
    {
      LoMonotone(g, groupCount - 1);
      LoStep(g);
    }

    /** The whole-group comparison: equal bytes give the counts at once. */
    method WholeGroup(i: nat, redo: bool) returns (done: bool)
      requires Inv(i, redo) && i < blockCount && blocks == 0 && group < groupCount - 1 && !discard
      modifies this, freeArray
      ensures blockMap == old(blockMap) && wanted == old(wanted)
      ensures done ==> i + perGroup <= blockCount && Inv(i + perGroup, redo)
      ensures !done ==> Inv(i, redo)
    {
      hide Clear, Avoids, Agree, Lo, Run, Done, Covered, Refused;
      var nbytes := perGroup / 8;
      if !SameBytes(found, blockMap, i, nbytes) {
        return false;
      }
      ghost var seen, j := Seen(redo), i + perGroup;
      assert j == Hi(group) < blockCount by {
        LoStep(group);
        GroupExists(group);
      }
      assert Agree(found, seen, i, j) && Agree(seen, found, i, j) by {
        SameIsAgree(found, blockMap, i, nbytes);
      }
      ClearAgree(found, seen, i, j);
      ClearSplit(seen, firstBlock, i, j);
      AgreeSplit(seen, found, firstBlock, i, j);
      var n := BitCount(found, i, nbytes);
      groupFree := perGroup - n;
      freeBlocks := freeBlocks + groupFree;
      NextGroup(j, seen);
      RunStart(j, seen);
      return true;
    }

    lemma RunStart(i: nat, seen: set<nat>)
      requires firstFree == blockCount && AllSpent(i, seen)
      ensures Run(i, seen) && Spent(i, seen)
    {
    }

    /** The comparison of one block; a difference turns discarding off. */
    method Compare(i: nat, redo: bool) returns (bitmap: bool)
      requires firstBlock <= i && Careful(i, Seen(redo)) && Spent(i, Seen(redo))
      modifies this`problems, this`discard
      ensures bitmap <==> i in Seen(redo)
      ensures Careful(i + 1, Seen(redo)) && Spent(i, Seen(redo))
    {
      var actual := i in found;
      bitmap := if redo then actual else i in blockMap;
      if actual != bitmap {
        problems := problems + 1;
        discard := false;
      }
    }

    method Count(i: nat, bitmap: bool, redo: bool)
      requires Shape() && group <= groupCount && At(i) && i < blockCount
      requires Counted(i, Seen(redo)) && Run(i, Seen(redo)) && Careful(i + 1, Seen(redo)) && Spent(i, Seen(redo))
      requires bitmap <==> i in Seen(redo)
      modifies this`group, this`blocks, this`groupFree, this`freeBlocks, this`firstFree, this`discard, this`discards,
               freeArray
      ensures Inv(i + 1, redo)
    {
      hide Clear, Lo, Careful, Run, Done, Spent;
      ghost var seen := Seen(redo);
      ClearStep(seen, firstBlock, i);
      ClearStep(seen, Lo(group), i);
      CountRun(i, bitmap, seen);
      if !bitmap {
        groupFree := groupFree + 1;
        freeBlocks := freeBlocks + 1;
      }
      blocks := blocks + 1;
      var last := blocks == perGroup || i == blockCount - 1;
      assert last <==> i + 1 == Hi(group) by {
        LoStep(group);
      }
      if last {
        EndRun(i, bitmap, seen);
        NextGroup(i + 1, seen);
        RunStart(i + 1, seen);
      }
    }

    /** A run of free blocks starts, or ends and is discarded. */
    method CountRun(i: nat, bitmap: bool, ghost seen: set<nat>)
      requires firstBlock <= i < blockCount && Run(i, seen) && Careful(i + 1, seen) && Spent(i, seen)
      requires bitmap <==> i in seen
      modifies this`firstFree, this`discard, this`discards
      ensures Careful(i + 1, seen) && Spent(i + 1, seen)
      ensures i + 1 < blockCount ==> Run(i + 1, seen)
      ensures firstFree == blockCount || (!bitmap && firstBlock <= firstFree <= i)
      ensures firstFree <= i ==> forall b :: firstFree <= b <= i ==> b !in seen
    {
      if !bitmap {
        if firstFree > i {
          firstFree := i;
        }
      } else if i > firstFree {
        DiscardRun(i, seen, i - firstFree);
        firstFree := blockCount;
      }
    }

    /** A run that lasts to the end of its group is discarded there. */
    method EndRun(i: nat, bitmap: bool, ghost seen: set<nat>)
      requires i < blockCount && Careful(i + 1, seen) && Spent(i + 1, seen)
      requires firstFree == blockCount || (!bitmap && firstBlock <= firstFree <= i)
      requires firstFree <= i ==> forall b :: firstFree <= b <= i ==> b !in seen
      modifies this`discard, this`discards
      ensures Careful(i + 1, seen) && AllSpent(i + 1, seen)
    {
      if !bitmap && i >= firstFree {
        DiscardRun(i, seen, i - firstFree + 1);
      }
    }

    /** The same for all free blocks, with no run going on. */
    ghost predicate AllSpent(i: nat, seen: set<nat>)
      reads this`discard, this`discards
    {
      discard ==> forall b :: firstBlock <= b < i && b !in seen ==> Covered(discards, b)
    }

    method DiscardRun(i: nat, ghost seen: set<nat>, n: nat)
      requires Careful(i + 1, seen) && firstBlock <= firstFree && firstFree + n <= i + 1 && n > 0 && Spent(i, seen)
      requires forall b :: firstFree <= b < firstFree + n ==> b !in seen
      modifies this`discard, this`discards
      ensures Careful(i + 1, seen)
      ensures discard ==> forall b :: firstBlock <= b < firstFree + n && b <= i && b !in seen ==> Covered(discards, b)
    {
      CoveredMore(discards, Range(firstFree, n));
      hide Covered, Refused;
      DiscardBlocks(firstFree, n);
    }

    /** One scan over all blocks. */
    method Scan(redo: bool)
      requires Shape() && Avoids(discards, found) && (discard ==> !Refused(discards))
      modifies this, freeArray
      ensures Inv(blockCount, redo) && blockMap == old(blockMap) && wanted == old(discard)
    {
      hide Inv, Shape, FirstInBg, Avoids, Refused;
      group, blocks, freeBlocks, groupFree, firstFree, problems := 0, 0, 0, 0, blockCount, 0;
      wanted := discard;
      StartOfScan(redo);
      var i := firstBlock;
      while i < blockCount
        invariant Inv(i, redo) && i <= blockCount && blockMap == old(blockMap) && wanted == old(discard)
      {
        FirstInGroup(i, redo);
        if FirstInBg(i) && group != groupCount - 1 && !discard {
          var done := WholeGroup(i, redo);
          if done {
            i := i + perGroup;
            continue;
          }
        }
        OneBlock(i, redo);
        i := i + 1;
      }
    }

    /**
     `check_block_bitmaps`; `fixit` is the answer to the questions about differing blocks. Afterwards the counts
     are the clear bits of the map that is kept, no discarded block was found in use, every other block was discarded
     if the option is still on, the option goes off for a reason, and a repair starts the scan over at most once.
     */
    method Check(fixit: bool) returns (redoFlag: nat)
      requires Shape() && Avoids(discards, found) && (discard ==> !Refused(discards))
      modifies this, freeArray
      ensures Avoids(discards, found) && redoFlag <= 1
      ensures redoFlag == 1 <==> fixit && !Agree(old(blockMap), found, firstBlock, blockCount)
      ensures blockMap == if redoFlag == 1 then found else old(blockMap)
      ensures freeBlocks == Clear(blockMap, firstBlock, blockCount)
      ensures forall g :: 0 <= g < groupCount ==> freeArray[g] == Clear(blockMap, Lo(g), Hi(g))
      ensures freeBlocks == Sum(freeArray[..])
      ensures discard ==> forall b :: firstBlock <= b < blockCount && b !in found ==> Covered(discards, b)
      ensures discard ==> !Refused(discards) && Agree(old(blockMap), found, firstBlock, blockCount)
      ensures old(discard) && !discard ==>
                changed || Refused(discards) || !Agree(old(blockMap), found, firstBlock, blockCount)
    {
      hide Covered, Refused;
      redoFlag := 0;
      while true
        invariant Shape() && Avoids(discards, found) && redoFlag <= 1
        invariant redoFlag == 1 ==> fixit && !Agree(old(blockMap), found, firstBlock, blockCount) && blockMap == found
        invariant (discard ==> !Refused(discards)) && (redoFlag == 1 ==> !discard)
        invariant redoFlag == 0 ==> blockMap == old(blockMap) && discard == old(discard)
        decreases 2 - redoFlag
      {
        Scan(redoFlag > 0);
        Scanned(redoFlag > 0);
        if problems > 0 && fixit {
          blockMap := found;
          redoFlag := redoFlag + 1;
        } else {
          break;
        }
      }
      GroupsAddUp(freeArray[..], blockMap);
    }

    /** What a finished scan has established. */
    lemma Scanned(redo: bool)
      requires Inv(blockCount, redo) && (redo ==> blockMap == found)
      ensures Shape() && Avoids(discards, found)
      ensures problems == 0 <==> Agree(blockMap, found, firstBlock, blockCount)
      ensures freeBlocks == Clear(blockMap, firstBlock, blockCount)
      ensures forall g :: 0 <= g < groupCount ==> freeArray[g] == Clear(blockMap, Lo(g), Hi(g))
      ensures redo ==> problems == 0
      ensures discard ==> forall b :: firstBlock <= b < blockCount && b !in found ==> Covered(discards, b)
      ensures wanted && !discard ==> problems > 0 || changed || Refused(discards)
      ensures discard ==> wanted && !Refused(discards) && problems == 0
    {
      hide Covered, Refused;
    }

    method OneBlock(i: nat, redo: bool)
      requires Inv(i, redo) && i < blockCount
      modifies this, freeArray
      ensures Inv(i + 1, redo) && blockMap == old(blockMap) && wanted == old(wanted)
    {
      hide Refused, Run, Avoids, Agree, Clear, Lo, Spent;
      var bitmap := Compare(i, redo);
      Count(i, bitmap, redo);
    }

    lemma StartOfScan(redo: bool)
      requires Shape() && Avoids(discards, found)
      requires group == blocks == freeBlocks == groupFree == problems == 0 && firstFree == blockCount
      requires wanted == discard && (discard ==> !Refused(discards))
      ensures Inv(firstBlock, redo) && firstBlock <= blockCount
    {
    }

    /** Whether block `i` is the first of its group. */
    predicate FirstInBg(i: nat)
      requires firstBlock <= i && perGroup > 0
    {
      (i - firstBlock) % perGroup == 0
    }

    lemma FirstInGroup(i: nat, redo: bool)
      requires Inv(i, redo) && i < blockCount
      ensures firstBlock <= i && perGroup > 0 && group < groupCount
      ensures FirstInBg(i) <==> blocks == 0
    {
      ModUnique(i - firstBlock, perGroup, group, blocks);
    }
  }

  lemma SameIsAgree(a: set<nat>, b: set<nat>, lo: nat, nbytes: nat)
    requires SameBytes(a, b, lo, nbytes)
    ensures Agree(a, b, lo, lo + 8 * nbytes) && Agree(b, a, lo, lo + 8 * nbytes)
    ensures Agree(a, a, lo, lo + 8 * nbytes)
  {
  }

  lemma AgreeSplit(a: set<nat>, b: set<nat>, lo: nat, mid: nat, hi: nat)
    requires lo <= mid <= hi && Agree(a, b, mid, hi)
    ensures Agree(a, b, lo, hi) <==> Agree(a, b, lo, mid)
  {
  }

  lemma ClearStep(bits: set<nat>, lo: nat, i: nat)
    requires lo <= i
    ensures Clear(bits, lo, i + 1) == Clear(bits, lo, i) + if i in bits then 0 else 1
  {
  }
}
