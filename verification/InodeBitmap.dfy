/** Reconciling the inode bitmap and discarding unused inode tables (e2fsck-patch/e2fsck/pass5.c). */
module InodeBitmap {
  import opened Arithmetic
  import opened BlockBitmap

  /** C division: it truncates toward zero. */
  function TruncDiv(a: int, b: int): int
    requires b > 0
  {
    if a >= 0 then a / b else -((-a) / b)
  }

  /** Inode-table blocks `blk .. blk + num` of a group, counted from the start of its table. */
  datatype TableRange = TableRange(group: nat, blk: nat, num: nat)

  const INT_MAX := 0x7fff_ffff

  /** The conversions of C to `int` and to `blk64_t`. */
  function ToInt(x: int): int {
    var u := x % 0x1_0000_0000;
    if u <= INT_MAX then u else u - 0x1_0000_0000
  }

  function ToBlk64(x: int): nat {
    x % 0x1_0000_0000_0000_0000
  }

  /**
   The blocks given up for `count` unused inodes from `start` on (the first inode of the group is 1). What is left of
   the count behind the round-up is an `int`; the quotient is stored in a `blk64_t`, where -1 would be enormous.
   */
  function WholeBlocks(start: nat, count: nat, perBlock: nat): (r: (nat, nat))
    requires start >= 1 && perBlock > 0
  {
    var blk := (start - 1 + perBlock - 1) / perBlock;
    var left := ToInt(count - (blk * perBlock - (start - 1)));
    (blk, ToBlk64(TruncDiv(left, perBlock)))
  }

  /** Rounding up skips less than one block, so truncation makes of a negative rest no blocks at all. */
  lemma NothingNegative(start: nat, count: nat, perBlock: nat)
    requires start >= 1 && 0 < perBlock <= INT_MAX && count <= INT_MAX
    ensures var blk := (start - 1 + perBlock - 1) / perBlock;
      var left := count - (blk * perBlock - (start - 1));
      0 < left + perBlock && left <= count && ToInt(left) == left &&
      0 <= TruncDiv(left, perBlock) <= count && WholeBlocks(start, count, perBlock).1 == TruncDiv(left, perBlock)
  {
    var s: int, b: int := start - 1, perBlock;
    RoundUp(s, b);
    var blk := (s + b - 1) / b;
    var left := count - (blk * b - s);
    if left >= 0 {
      QuotientTimes(left, b);
      Shrinks(left, b);
    } else {
      SmallQuotient(-left, b);
    }
  }

  lemma Shrinks(a: int, b: int)
    requires a >= 0 && b > 0
    ensures 0 <= a / b <= a
  {
    QuotientTimes(a, b);
    if a / b > a {
      MulOrder(1, b, a / b);
    }
  }

  /** They are exactly the blocks whose inodes all lie in that range: a partly used block at either end is spared. */
  lemma WholeBlocksExact(start: nat, count: nat, perBlock: nat, k: nat)
    requires start >= 1 && 0 < perBlock <= INT_MAX && count <= INT_MAX
    ensures var (blk, num) := WholeBlocks(start, count, perBlock);
      num <= count && (blk <= k < blk + num <==> start - 1 <= k * perBlock && (k + 1) * perBlock <= start - 1 + count)
  {
    hide WholeBlocks, TruncDiv, ToInt, ToBlk64;
    var (blk, num) := WholeBlocks(start, count, perBlock);
    var s: int, b: int := start - 1, perBlock;
    FirstWhole(start, count, perBlock);
    NothingNegative(start, count, perBlock);
    StartsBehind(s, b, k);
    if blk <= k {
      Distribute(k + 1, blk, b);
      Fits(k + 1 - blk, s + count - blk * b, b);
    }
  }

  lemma FirstWhole(start: nat, count: nat, perBlock: nat)
    requires start >= 1 && perBlock > 0
    ensures WholeBlocks(start, count, perBlock).0 == (start - 1 + perBlock - 1) / perBlock
  {
    hide TruncDiv, ToInt, ToBlk64;
  }

  lemma StartsBehind(s: int, b: int, k: int)
    requires s >= 0 && b > 0
    ensures (s + b - 1) / b <= k <==> s <= k * b
  {
    var blk := (s + b - 1) / b;
    RoundUp(s, b);
    if blk <= k {
      MulOrder(blk, k, b);
    } else {
      MulOrder(k, blk - 1, b);
      assert (blk - 1) * b == blk * b - b;
    }
  }

  /** `n` blocks of size `b` fit into `left` exactly when `n` is at most the truncated quotient. */
  lemma Fits(n: int, left: int, b: int)
    requires n >= 1 && b > 0
    ensures n <= TruncDiv(left, b) <==> n * b <= left
  {
    MulOrder(1, n, b);
    if left >= 0 {
      AtMostQuotient(n, left, b);
    } else {
      QuotientTimes(-left, b);
    }
  }

  /** So they hold none of the inodes outside that range. */
  lemma WholeBlocksInside(start: nat, count: nat, perBlock: nat, x: nat)
    requires start >= 1 && 0 < perBlock <= INT_MAX && count <= INT_MAX
    ensures var (blk, num) := WholeBlocks(start, count, perBlock);
      (blk <= x / perBlock < blk + num ==> start - 1 <= x < start - 1 + count)
  {
    hide WholeBlocks;
    var b: int, k := perBlock, x / perBlock;
    WholeBlocksExact(start, count, perBlock, k);
    QuotientTimes(x, b);
    assert (k + 1) * b == k * b + b;
  }

  lemma RoundUp(s: int, b: int)
    requires s >= 0 && b > 0
    ensures 0 <= (s + b - 1) / b && s <= (s + b - 1) / b * b < s + b
  {
    QuotientTimes(s + b - 1, b);
  }

  /** How many numbers from `lo` up to `hi` are set. */
  function Marked(bits: set<nat>, lo: nat, hi: nat): nat
    decreases hi
  {
    if hi <= lo then 0 else Marked(bits, lo, hi - 1) + if hi - 1 in bits then 1 else 0
  }

  lemma MarkedStep(bits: set<nat>, lo: nat, i: nat)
    requires lo <= i
    ensures Marked(bits, lo, i + 1) == Marked(bits, lo, i) + if i in bits then 1 else 0
  {
  }

  lemma {:induction false} NoneMarked(bits: set<nat>, lo: nat, hi: nat)
    requires lo <= hi && forall x :: lo <= x < hi ==> x !in bits
    ensures Marked(bits, lo, hi) == 0 && Clear(bits, lo, hi) == hi - lo
    decreases hi
  {
    if lo == hi {
    } else {
      NoneMarked(bits, lo, hi - 1);
    }
  }

  class InodeBitmaps {
    const perGroup: nat
    const groupCount: nat
    const perBlock: nat
    const inodeCount: nat
    const used: set<nat>
    const dirs: set<nat>
    const csum: bool
    const zeroes: bool
    const changed: bool
    /** The inodes at which the offer to initialise the group of an inode in use is accepted. */
    const accepts: set<nat>
    /** The ranges whose discarding fails. */
    const refused: set<TableRange>
    const freeArray: array<nat>
    const dirArray: array<nat>
    var inodeMap: set<nat>
    /** The groups flagged `EXT2_BG_INODE_UNINIT`. */
    var uninit: set<nat>
    var discard: bool
    var discards: seq<TableRange>

    var group: nat
    var inodes: nat
    var freeInodes: nat
    var groupFree: nat
    var dirsCount: nat
    var firstFree: nat
    var problems: nat
    var skipGroup: bool

    /** The flagged groups when the scan began. */
    ghost var flagged: set<nat>
    /** Whether discarding was on when the scan began. */
    ghost var wanted: bool

    constructor (perGroup: nat, groupCount: nat, perBlock: nat, used: set<nat>, dirs: set<nat>, inodeMap: set<nat>,
                 uninit: set<nat>, csum: bool, zeroes: bool, changed: bool, discard: bool, accepts: set<nat>,
                 refused: set<TableRange>)
      ensures this.perGroup == perGroup && this.groupCount == groupCount && this.perBlock == perBlock
      ensures this.used == used && this.dirs == dirs && this.inodeMap == inodeMap && this.uninit == uninit
      ensures this.csum == csum && this.accepts == accepts && inodeCount == groupCount * perGroup && discards == []
      ensures freeArray.Length == dirArray.Length == groupCount && freeArray != dirArray
      ensures fresh(freeArray) && fresh(dirArray)
    {
      this.perGroup, this.groupCount, this.perBlock := perGroup, groupCount, perBlock;
      inodeCount := groupCount * perGroup;
      this.used, this.dirs, this.inodeMap, this.uninit := used, dirs, inodeMap, uninit;
      this.csum, this.zeroes, this.changed, this.discard := csum, zeroes, changed, discard;
      freeArray := new nat[groupCount];
      dirArray := new nat[groupCount];
      this.accepts, this.refused := accepts, refused;
      discards, skipGroup, flagged, wanted := [], false, uninit, discard;
      group, inodes, freeInodes, groupFree, dirsCount, firstFree, problems := 0, 0, 0, 0, 0, perGroup + 1, 0;
    }

    /** The first inode of a group. */
    ghost function Lo(g: nat): (r: nat)
      ensures r >= 1
    {
      1 + g * perGroup
    }

    ghost predicate Shape() {
      && 0 < perGroup <= INT_MAX && groupCount > 0 && 0 < perBlock <= INT_MAX && inodeCount == groupCount * perGroup
      && freeArray.Length == dirArray.Length == groupCount && freeArray != dirArray
    }

    ghost function GroupOf(x: nat): int
      requires perGroup > 0
    {
      (x as int - 1) / perGroup
    }

    /**
     Inode `x` of group `g` is met while the group is being skipped: the group was among the flagged ones, and no inode
     in use before it made the flag go away. Its bit in the map is then taken for clear.
     */
    ghost predicate Skip(flags: set<nat>, g: int, x: nat) {
      csum && g in flags && forall y :: 1 + g * perGroup <= y < x && y in used ==> y !in accepts
    }

    /** The part of the inode map that a scan looks at. */
    ghost function Looked(bits: set<nat>, flags: set<nat>): set<nat>
      requires perGroup > 0
    {
      set x | x in bits && !Skip(flags, GroupOf(x), x)
    }

    /** No inode of group `h` before `x` is in use with the offer to initialise its group accepted. */
    ghost predicate Untouched(h: nat, x: nat) {
      forall y :: Lo(h) <= y < x && y < Lo(h + 1) && y in used ==> y !in accepts
    }

    /** Exactly the groups for which the offer has been accepted before inode `i` have lost their flag. */
    ghost predicate Flags(i: nat, redo: bool)
      reads this`uninit, this`flagged
    {
      forall h: nat :: h in uninit <==> h in flagged && (redo || !csum || Untouched(h, i))
    }

    lemma UntouchedStep(i: nat, h: nat)
      requires Shape() && group < groupCount && inodes < perGroup && i == Lo(group) + inodes
      ensures Untouched(h, i + 1) <==> Untouched(h, i) && !(h == group && i in used && i in accepts)
    {
      hide Lo;
      LoStep(group);
      if h < group {
        LoMonotone(h + 1, group);
      } else if h > group {
        LoMonotone(group + 1, h);
      }
    }

    /** Inodes that are not in use change no flag. */
    lemma FlagsOver(i: nat, j: nat, redo: bool)
      requires i <= j && (forall x :: i <= x < j ==> x !in used) && Flags(i, redo)
      ensures Flags(j, redo)
    {
      forall h: nat
        ensures Untouched(h, j) <==> Untouched(h, i)
      {
      }
    }

    lemma LoStep(g: nat)
      ensures Lo(g + 1) == Lo(g) + perGroup
    {
    }

    lemma LoEnds()
      requires Shape()
      ensures Lo(0) == 1 && Lo(groupCount) == inodeCount + 1
    {
    }

    lemma {:induction false} LoMonotone(g: nat, h: nat)
      requires g <= h
      ensures Lo(g) <= Lo(h)
      decreases h
    {
      if g == h {
      } else {
        LoStep(h - 1);
        LoMonotone(g, h - 1);
      }
    }

    ghost function Seen(redo: bool): set<nat>
      reads this`inodeMap, this`flagged
      requires perGroup > 0
    {
      if redo then used else Looked(inodeMap, flagged)
    }

    lemma SeenAt(i: nat)
      requires Shape() && group < groupCount && inodes < perGroup && i == Lo(group) + inodes
      ensures i in Seen(false) <==> i in inodeMap && !Skip(flagged, group, i)
    {
      DivUnique(i - 1, perGroup, group, inodes);
    }

    ghost predicate At(i: nat)
      reads this`group, this`inodes
    {
      if i <= inodeCount then
        i == Lo(group) + inodes && inodes < perGroup && group < groupCount
      else
        i == inodeCount + 1 && group == groupCount && inodes == 0
    }

    ghost predicate Counted(i: nat, seen: set<nat>)
      reads this`freeInodes, this`groupFree, this`dirsCount, this`group, freeArray, dirArray
      requires Shape() && group <= groupCount
    {
      && freeInodes == Clear(seen, 1, i)
      && groupFree == Clear(seen, Lo(group), i) && dirsCount == Marked(seen * dirs, Lo(group), i)
      && Done(seen)
    }

    ghost predicate Done(seen: set<nat>)
      reads this`group, freeArray, dirArray
      requires Shape() && group <= groupCount
    {
      forall g :: 0 <= g < group ==>
                    freeArray[g] == Clear(seen, Lo(g), Lo(g + 1)) &&
                    dirArray[g] == Marked(seen * dirs, Lo(g), Lo(g + 1))
    }

    /** The inodes of this group from the `firstFree`-th to the `n`-th are free. */
    ghost predicate Run(n: nat, seen: set<nat>)
      reads this`firstFree, this`group
    {
      && 1 <= firstFree && (firstFree <= n || firstFree == perGroup + 1)
      && forall x :: Lo(group) + firstFree - 1 <= x < Lo(group) + n ==> x !in seen
    }

    ghost predicate Safe(d: TableRange)
      requires perBlock > 0
    {
      forall x :: 0 <= x && d.blk <= x / perBlock < d.blk + d.num ==> x < perGroup && Lo(d.group) + x !in used
    }

    ghost predicate Careful(i: nat, seen: set<nat>)
      reads this`problems, this`discard, this`discards, this`wanted
      requires perBlock > 0
    {
      && (problems == 0 <==> Agree(seen, used, 1, i))
      && (problems > 0 ==> !discard)
      && (wanted && !discard ==> problems > 0 || changed || Refused(discards))
      && (discard ==> wanted && !Refused(discards))
      && (forall k :: 0 <= k < |discards| ==> Safe(discards[k]))
    }

    ghost predicate Refused(ds: seq<TableRange>) {
      exists k :: 0 <= k < |ds| && ds[k] in refused
    }

    lemma RefusedMore(d: TableRange)
      ensures Refused(discards + [d]) <==> Refused(discards) || d in refused
    {
      var more := discards + [d];
      assert forall k :: 0 <= k < |discards| ==> more[k] == discards[k];
      assert more[|discards|] == d;
    }

    /** No inode of block `k` of the table of group `g` is set. */
    ghost predicate Unused(g: nat, k: nat, seen: set<nat>) {
      forall x :: Lo(g) + k * perBlock <= x < Lo(g) + (k + 1) * perBlock ==> x !in seen
    }

    ghost predicate Discarded(ds: seq<TableRange>, g: nat, k: nat) {
      exists j :: 0 <= j < |ds| && ds[j].group == g && ds[j].blk <= k < ds[j].blk + ds[j].num
    }

    /** Of the first `n` inodes of group `g`, every whole table block without a set inode is discarded. */
    ghost predicate Spent(ds: seq<TableRange>, g: nat, n: nat, seen: set<nat>) {
      forall k: nat :: (k + 1) * perBlock <= n && Unused(g, k, seen) ==> Discarded(ds, g, k)
    }

    ghost predicate AllSpent(ds: seq<TableRange>, groups: nat, seen: set<nat>) {
      forall g: nat :: g < groups ==> Spent(ds, g, perGroup, seen)
    }

    /** Inode `n` of group `g`, if there is one, is set. */
    ghost predicate Edge(g: nat, n: nat, seen: set<nat>) {
      n >= 1 ==> Lo(g) + n - 1 in seen
    }

    /** As long as discarding goes on, only the run of free inodes that is still open has not been given up. */
    ghost predicate Thorough(n: nat, seen: set<nat>)
      reads this`discard, this`discards, this`group, this`firstFree
      requires firstFree >= 1
    {
      var k := if firstFree <= n then firstFree - 1 else n;
      discard && zeroes ==>
        AllSpent(discards, group, seen) && Spent(discards, group, k, seen) && Edge(group, k, seen)
    }

    /** The flag of the scan says whether inode `i`, the next one, is skipped. */
    ghost predicate Skipping(i: nat, redo: bool)
      reads this`skipGroup, this`group, this`flagged
    {
      !redo && i <= inodeCount ==> (skipGroup <==> Skip(flagged, group, i))
    }

    ghost predicate Inv(i: nat, redo: bool)
      reads this, freeArray, dirArray
    {
      && Shape() && group <= groupCount && At(i) && Flags(i, redo) && Skipping(i, redo)
      && Counted(i, Seen(redo)) && Run(inodes, Seen(redo)) && Careful(i, Seen(redo))
      && Thorough(inodes, Seen(redo))
    }

    /** `e2fsck_discard_inodes`. */
    method DiscardInodes(start: nat, count: nat, ghost i: nat, ghost seen: set<nat>)
      requires 0 < perBlock <= INT_MAX && start >= 1 && start - 1 + count <= perGroup <= INT_MAX && Careful(i, seen)
      requires discard ==> forall x :: Lo(group) + start - 1 <= x < Lo(group) + start - 1 + count ==> x !in used
      modifies this`discard, this`discards
      ensures if start <= perGroup then Careful(i, seen) else !discard
      ensures var (blk, num) := WholeBlocks(start, count, perBlock);
        discards == if old(discard) && start <= perGroup && zeroes && !changed && num > 0
                    then old(discards) + [TableRange(group, blk, num)] else old(discards)
      ensures discard ==> old(discard) && start <= perGroup
      ensures discard && zeroes && WholeBlocks(start, count, perBlock).1 > 0 ==> !changed
    {
      hide WholeBlocks, Discarded, Refused;
      if start < 1 || start > perGroup {
        discard := false;
      }
      if !discard || !zeroes {
        return;
      }
      var (blk, num) := WholeBlocks(start, count, perBlock);
      if num > 0 {
        var d := TableRange(group, blk, num);
        forall x | 0 <= x && blk <= x / perBlock < blk + num
          ensures x < perGroup && Lo(group) + x !in used
        {
          WholeBlocksInside(start, count, perBlock, x);
        }
        if changed {
          discard := false;
        }
        if discard {
          RefusedMore(d);
          discards := discards + [d];
          if d in refused {
            discard := false;
          }
        }
      }
    }

    method DiscardRun(n: nat, ghost i: nat, ghost seen: set<nat>)
      requires Shape() && firstFree <= n <= perGroup && Run(n, seen) && Careful(i, seen) && Lo(group) + n <= i
      requires Thorough(n, seen)
      modifies this`discard, this`discards
      ensures Careful(i, seen)
      ensures discard && zeroes ==> AllSpent(discards, group, seen) && Spent(discards, group, n, seen)
    {
      hide Safe, Lo, Spent, Discarded, WholeBlocks;
      ghost var before := discards;
      DiscardInodes(firstFree, n - firstFree + 1, i, seen);
      if discard && zeroes {
        RunDiscarded(discards, group, firstFree, n - firstFree + 1);
        RunSpent(before, discards, group, firstFree, n, seen);
        forall g: nat | g < group
          ensures Spent(discards, g, perGroup, seen)
        {
          SpentMore(before, discards, g, perGroup, seen);
        }
      }
    }

    lemma RunDiscarded(ds: seq<TableRange>, g: nat, start: nat, count: nat)
      requires start >= 1 && 0 < perBlock <= INT_MAX && count <= INT_MAX
      requires var (blk, num) := WholeBlocks(start, count, perBlock);
        num > 0 ==> |ds| > 0 && ds[|ds| - 1] == TableRange(g, blk, num)
      ensures forall k: nat :: start - 1 <= k * perBlock && (k + 1) * perBlock <= start - 1 + count ==>
                                 Discarded(ds, g, k)
    {
      hide WholeBlocks;
      forall k: nat | start - 1 <= k * perBlock && (k + 1) * perBlock <= start - 1 + count
        ensures Discarded(ds, g, k)
      {
        WholeBlocksExact(start, count, perBlock, k);
        var j := |ds| - 1;
        assert ds[j].group == g && ds[j].blk <= k < ds[j].blk + ds[j].num;
      }
    }

    lemma SpentMore(before: seq<TableRange>, ds: seq<TableRange>, g: nat, n: nat, seen: set<nat>)
      requires before <= ds && Spent(before, g, n, seen)
      ensures Spent(ds, g, n, seen)
    {
      forall k: nat | Discarded(before, g, k)
        ensures Discarded(ds, g, k)
      {
        DiscardedMore(before, ds, g, k);
      }
    }

    lemma DiscardedMore(before: seq<TableRange>, ds: seq<TableRange>, g: nat, k: nat)
      requires before <= ds && Discarded(before, g, k)
      ensures Discarded(ds, g, k)
    {
      var j :| 0 <= j < |before| && before[j].group == g && before[j].blk <= k < before[j].blk + before[j].num;
      assert ds[j] == before[j];
    }

    lemma EdgeOutside(g: nat, k: nat, n: nat, seen: set<nat>)
      requires Edge(g, n, seen) && Unused(g, k, seen)
      ensures n <= k * perBlock || (k + 1) * perBlock < n
    {
      hide Lo;
      if k * perBlock < n {
        assert Lo(g) + (n - 1) in seen;
      }
    }

    /** A block without a set inode does not straddle the beginning of a run: the inode before the run is set. */
    lemma RunSpent(before: seq<TableRange>, ds: seq<TableRange>, g: nat, first: nat, n: nat, seen: set<nat>)
      requires before <= ds && perBlock > 0 && 1 <= first <= n
      requires Spent(before, g, first - 1, seen) && Edge(g, first - 1, seen)
      requires forall k: nat :: first - 1 <= k * perBlock && (k + 1) * perBlock <= n ==> Discarded(ds, g, k)
      ensures Spent(ds, g, n, seen)
    {
      hide Discarded, Lo;
      SpentMore(before, ds, g, first - 1, seen);
      forall k: nat | (k + 1) * perBlock <= n && Unused(g, k, seen)
        ensures Discarded(ds, g, k)
      {
        EdgeOutside(g, k, first - 1, seen);
      }
    }

    /** A block that ends with a set inode is not to be discarded. */
    lemma SpentStep(ds: seq<TableRange>, g: nat, n: nat, seen: set<nat>)
      requires perBlock > 0 && Spent(ds, g, n, seen) && Edge(g, n + 1, seen)
      ensures Spent(ds, g, n + 1, seen)
    {
      hide Discarded, Lo;
      forall k: nat | (k + 1) * perBlock <= n + 1 && Unused(g, k, seen)
        ensures Discarded(ds, g, k)
      {
        EdgeOutside(g, k, n + 1, seen);
        assert (k + 1) * perBlock == k * perBlock + perBlock;
      }
    }

    lemma NothingSpent(ds: seq<TableRange>, g: nat, seen: set<nat>)
      requires perBlock > 0
      ensures Spent(ds, g, 0, seen) && Edge(g, 0, seen)
    {
      forall k: nat | Unused(g, k, seen)
        ensures (k + 1) * perBlock > 0
      {
      }
    }

    /** The end of a group. */
    method NextGroup(i: nat, ghost seen: set<nat>)
      requires Shape() && group < groupCount && i == Lo(group + 1) && Counted(i, seen)
      modifies this`group, this`inodes, this`groupFree, this`dirsCount, this`firstFree, this`skipGroup, freeArray,
               dirArray
      ensures group <= groupCount && inodes == 0 && At(i) && Counted(i, seen) && Run(0, seen)
      ensures group == old(group) + 1 && (skipGroup <==> csum && i <= inodeCount && group in uninit)
      ensures firstFree == perGroup + 1
    {
      hide Clear, Marked, Lo, Done;
      firstFree := perGroup + 1;
      RecordGroup(i, seen);
      inodes, skipGroup, groupFree, dirsCount := 0, false, 0, 0;
      NothingYet(group, seen);
      NothingFree(seen);
      LoEnds();
      LoOrder(group);
      LoMonotone(group, groupCount);
      if csum && i != inodeCount + 1 && group in uninit {
        skipGroup := true;
      }
    }

    method RecordGroup(ghost i: nat, ghost seen: set<nat>)
      requires Shape() && group < groupCount && i == Lo(group + 1) && Done(seen)
      requires groupFree == Clear(seen, Lo(group), i) && dirsCount == Marked(seen * dirs, Lo(group), i)
      modifies this`group, freeArray, dirArray
      ensures group == old(group) + 1 && Done(seen)
    {
      hide Clear, Marked, Lo;
      freeArray[group] := groupFree;
      dirArray[group] := dirsCount;
      group := group + 1;
    }

    lemma NothingFree(seen: set<nat>)
      requires firstFree == perGroup + 1
      ensures Run(0, seen)
    {
    }

    lemma NothingYet(g: nat, seen: set<nat>)
      ensures Clear(seen, Lo(g), Lo(g)) == 0 && Marked(seen * dirs, Lo(g), Lo(g)) == 0
    {
    }

    lemma LoOrder(g: nat)
      requires Shape() && g <= groupCount
      ensures Lo(g) <= inodeCount <==> g < groupCount
    {
      hide Lo;
      LoEnds();
      if g < groupCount {
        LoStep(g);
        LoMonotone(g + 1, groupCount);
      }
    }

    /** One comparison. Using an inode of a group that is not initialised can initialise it. */
    method Compare(i: nat, redo: bool) returns (bitmap: bool)
      requires Inv(i, redo) && i <= inodeCount
      modifies this`problems, this`discard, this`uninit, this`skipGroup
      ensures bitmap <==> i in Seen(redo)
      ensures Careful(i + 1, Seen(redo)) && Flags(i + 1, redo) && (inodes + 1 < perGroup ==> Skipping(i + 1, redo))
      ensures firstFree >= 1 && Thorough(inodes, Seen(redo))
    {
      hide Safe, Counted, Lo, Looked, Spent, AllSpent, Edge, Untouched;
      ghost var seen := Seen(redo);
      forall h: nat {
        UntouchedStep(i, h);
      }
      LoStep(group);
      SkipIsUntouched(i);
      SeenAt(i);
      SkipStep(i);
      var actual := i in used;
      bitmap := false;
      if redo {
        bitmap := actual;
      } else if !skipGroup {
        bitmap := i in inodeMap;
      }
      AgreeStep(seen, used, 1, i);
      if actual != bitmap {
        if actual && skipGroup {
          if i in accepts {
            uninit := uninit - {group};
            skipGroup := false;
          }
        }
        problems := problems + 1;
        discard := false;
      }
    }

    lemma SkipIsUntouched(i: nat)
      requires i <= Lo(group + 1)
      ensures Skip(flagged, group, i) <==> csum && group in flagged && Untouched(group, i)
    {
    }

    lemma SkipStep(i: nat)
      requires i >= Lo(group)
      ensures Skip(flagged, group, i + 1) <==> Skip(flagged, group, i) && !(i in used && i in accepts)
    {
    }

    /** The counts after inode `i`, and the end of its group. */
    method Count(i: nat, bitmap: bool, redo: bool)
      requires Shape() && group < groupCount && inodes < perGroup && i == Lo(group) + inodes && Flags(i + 1, redo)
      requires inodes + 1 < perGroup ==> Skipping(i + 1, redo)
      requires Counted(i, Seen(redo)) && Run(inodes, Seen(redo)) && Careful(i + 1, Seen(redo))
      requires Thorough(inodes, Seen(redo)) && (bitmap <==> i in Seen(redo))
      modifies this`group, this`inodes, this`groupFree, this`freeInodes, this`dirsCount, this`firstFree, this`skipGroup
      modifies this`discard, this`discards, freeArray, dirArray
      ensures Inv(i + 1, redo)
    {
      hide Clear, Marked, Lo, Careful, Run, Done, Flags, Looked, Thorough;
      ghost var seen := Seen(redo);
      ClearStep(seen, 1, i);
      ClearStep(seen, Lo(group), i);
      MarkedStep(seen * dirs, Lo(group), i);
      LoStep(group);
      LoNext(group);
      inodes := inodes + 1;
      CountRun(i, bitmap, seen);
      if bitmap {
        if i in dirs {
          dirsCount := dirsCount + 1;
        }
      } else {
        groupFree := groupFree + 1;
        freeInodes := freeInodes + 1;
      }
      if inodes == perGroup || i == inodeCount {
        FinishGroup(i + 1, bitmap, redo);
      }
    }

    method FinishGroup(i: nat, bitmap: bool, redo: bool)
      requires Shape() && group < groupCount && inodes == perGroup && i == Lo(group + 1) && Flags(i, redo)
      requires Counted(i, Seen(redo)) && Run(inodes, Seen(redo)) && Careful(i, Seen(redo))
      requires Thorough(inodes, Seen(redo)) && (bitmap ==> firstFree > inodes)
      modifies this`group, this`inodes, this`groupFree, this`dirsCount, this`firstFree, this`skipGroup
      modifies this`discard, this`discards, freeArray, dirArray
      ensures Inv(i, redo)
    {
      hide Clear, Marked, Lo, Careful, Run, Done, Looked, Spent, AllSpent;
      ghost var seen := Seen(redo);
      LoStep(group);
      if !bitmap && inodes >= firstFree {
        DiscardRun(inodes, i, seen);
      }
      GroupSpent(group, seen);
      NextGroup(i, seen);
      NothingSpent(discards, group, seen);
      assert Untouched(group, i);
      SkipNext(i, redo);
    }

    lemma GroupSpent(g: nat, seen: set<nat>)
      ensures AllSpent(discards, g + 1, seen) <==> AllSpent(discards, g, seen) && Spent(discards, g, perGroup, seen)
    {
    }

    lemma LoNext(g: nat)
      requires Shape() && g < groupCount
      ensures Lo(g + 1) <= inodeCount + 1 && (Lo(g + 1) == inodeCount + 1 <==> g + 1 == groupCount)
    {
      LoOrder(g + 1);
      LoEnds();
      LoMonotone(g + 1, groupCount);
    }

    lemma SkipNext(i: nat, redo: bool)
      requires i == Lo(group) && (skipGroup <==> csum && i <= inodeCount && group in uninit)
      requires group in uninit <==> group in flagged
      ensures Skipping(i, redo)
    {
    }

    method CountRun(i: nat, bitmap: bool, ghost seen: set<nat>)
      requires Shape() && 1 <= inodes <= perGroup && i == Lo(group) + inodes - 1
      requires Run(inodes - 1, seen) && Careful(i + 1, seen) && (bitmap <==> i in seen)
      requires Thorough(inodes - 1, seen)
      modifies this`firstFree, this`discard, this`discards
      ensures Run(inodes, seen) && Careful(i + 1, seen) && Thorough(inodes, seen) && (bitmap ==> firstFree > inodes)
    {
      hide Lo, Safe, Spent, AllSpent;
      if bitmap {
        if inodes > firstFree {
          DiscardRun(inodes - 1, i + 1, seen);
          firstFree := perGroup + 1;
        }
        if discard && zeroes {
          SpentStep(discards, group, inodes - 1, seen);
        }
      } else if firstFree > inodes {
        firstFree := inodes;
      }
    }

    /** A group that is not initialised and has no inode in use is counted at once, as if at its last inode. */
    method WholeGroup(i: nat, redo: bool)
      requires Inv(i, redo) && i <= inodeCount && skipGroup && inodes == 0 && perGroup > 1
      requires forall x :: i <= x < i + perGroup ==> x !in used
      modifies this, freeArray, dirArray
      ensures inodeMap == old(inodeMap) && flagged == old(flagged) && wanted == old(wanted) && Inv(i + perGroup, redo)
    {
      hide Refused, Clear, Marked, Lo, Agree, Done, Flags, Safe, Looked, Spent, AllSpent, Edge;
      ghost var seen, last := Seen(redo), i + perGroup - 1;
      LoStep(group);
      if !redo {
        SkippedWhole(i);
      }
      NoneMarked(seen, i, last);
      NoneMarked(seen * dirs, i, last);
      ClearSplit(seen, 1, i, last);
      BothClear(seen, used, 1, i, last + 1);
      FlagsOver(i, i + perGroup, redo);
      NothingYet(group, seen);
      firstFree := 1;
      inodes := perGroup - 1;
      groupFree := inodes;
      freeInodes := freeInodes + inodes;
      skipGroup := false;
      Count(i + perGroup - 1, false, redo);
    }

    /** In a skipped group without an inode in use nothing is looked at. */
    lemma SkippedWhole(i: nat)
      requires Shape() && group < groupCount && i == Lo(group) && Skip(flagged, group, i)
      requires forall x :: i <= x < i + perGroup ==> x !in used
      ensures forall x :: i <= x < i + perGroup ==> x !in Seen(false)
    {
      forall x | i <= x < i + perGroup
        ensures x !in Seen(false)
      {
        DivUnique(x - 1, perGroup, group, x - i);
      }
    }

    method OneInode(i: nat, redo: bool)
      requires Inv(i, redo) && i <= inodeCount
      modifies this, freeArray, dirArray
      ensures inodeMap == old(inodeMap) && flagged == old(flagged) && wanted == old(wanted) && Inv(i + 1, redo)
    {
      hide Clear, Marked, Lo, Careful, Run, Done, Looked, Skip, Thorough;
      var bitmap := Compare(i, redo);
      Count(i, bitmap, redo);
    }

    predicate FirstInBg(i: nat)
      requires perGroup > 0
    {
      i % perGroup == 1
    }

    lemma FirstInGroup(i: nat, redo: bool)
      requires Inv(i, redo) && i <= inodeCount
      ensures perGroup > 0 && i + perGroup - inodes <= inodeCount + 1
      ensures FirstInBg(i) ==> inodes == 0 && perGroup > 1
    {
      LoNext(group);
      LoStep(group);
      if inodes + 1 < perGroup {
        ModUnique(i, perGroup, group, inodes + 1);
      } else {
        assert i == (group + 1) * perGroup;
        ModUnique(i, perGroup, group + 1, 0);
      }
    }

    /** One scan over all inodes. */
    method Scan(redo: bool)
      requires Shape() && (discard ==> !Refused(discards)) && forall k :: 0 <= k < |discards| ==> Safe(discards[k])
      modifies this, freeArray, dirArray
      ensures Inv(inodeCount + 1, redo) && inodeMap == old(inodeMap) && flagged == old(uninit)
      ensures wanted == old(discard)
    {
      hide Inv, Shape, Safe, Refused;
      flagged, wanted := uninit, discard;
      group, inodes, freeInodes, groupFree, dirsCount, firstFree, problems := 0, 0, 0, 0, 0, perGroup + 1, 0;
      skipGroup := csum && group in uninit;
      StartOfScan(redo);
      var i := 1;
      while i <= inodeCount
        invariant 1 <= i <= inodeCount + 1 && Inv(i, redo) && inodeMap == old(inodeMap) && flagged == old(uninit)
        invariant wanted == old(discard)
      {
        i := GroupOrInode(i, redo);
      }
    }

    method GroupOrInode(i: nat, redo: bool) returns (next: nat)
      requires Inv(i, redo) && i <= inodeCount
      modifies this, freeArray, dirArray
      ensures inodeMap == old(inodeMap) && flagged == old(flagged) && wanted == old(wanted)
      ensures i < next <= inodeCount + 1 && Inv(next, redo)
    {
      hide Inv, Shape, FirstInBg;
      FirstInGroup(i, redo);
      if skipGroup && FirstInBg(i) && forall x :: i <= x < i + perGroup ==> x !in used {
        WholeGroup(i, redo);
        next := i + perGroup;
      } else {
        OneInode(i, redo);
        next := i + 1;
      }
    }

    lemma StartOfScan(redo: bool)
      requires Shape() && flagged == uninit && forall k :: 0 <= k < |discards| ==> Safe(discards[k])
      requires group == inodes == freeInodes == groupFree == dirsCount == problems == 0 && firstFree == perGroup + 1
      requires (skipGroup <==> csum && group in uninit) && wanted == discard && (discard ==> !Refused(discards))
      ensures Inv(1, redo)
    {
      hide Clear, Marked, Lo, Spent, Edge;
      LoEnds();
      LoOrder(0);
      NothingYet(0, Seen(redo));
      NothingSpent(discards, 0, Seen(redo));
      SkipNext(1, redo);
    }

    /**
     `check_inode_bitmaps`: the counts of free inodes and of directories are those of the map that is kept, as far as
     it is looked at; no discarded block of an inode table holds an inode in use, and if discarding is still on every
     other block is discarded; discarding ends for a reason; and a repair starts the scan over at most once. What is
     not looked at are the skipped parts of groups flagged as not initialised. A group loses that flag exactly when the
     offer was accepted at one of its inodes in use.
     */
    method Check(fixit: bool) returns (redoFlag: nat)
      requires Shape() && discards == []
      modifies this, freeArray, dirArray
      ensures forall k :: 0 <= k < |discards| ==> Safe(discards[k])
      ensures redoFlag <= 1 && inodeMap == if redoFlag == 1 then used else old(inodeMap)
      ensures redoFlag == 1 <==> fixit && !Agree(Looked(old(inodeMap), old(uninit)), used, 1, inodeCount + 1)
      ensures var seen := if redoFlag == 1 then inodeMap else Looked(inodeMap, old(uninit));
        && freeInodes == Clear(seen, 1, inodeCount + 1)
        && forall g :: 0 <= g < groupCount ==> freeArray[g] == Clear(seen, Lo(g), Lo(g + 1)) &&
                                               dirArray[g] == Marked(seen * dirs, Lo(g), Lo(g + 1))
      ensures forall h: nat :: h in uninit <==> h in old(uninit) && (!csum || Untouched(h, inodeCount + 1))
      ensures discard && zeroes ==> AllSpent(discards, groupCount, used)
      ensures discard ==>
                !Refused(discards) && Agree(Looked(old(inodeMap), old(uninit)), used, 1, inodeCount + 1)
      ensures old(discard) && !discard ==>
                || changed || Refused(discards)
                || !Agree(Looked(old(inodeMap), old(uninit)), used, 1, inodeCount + 1)
    {
      hide Safe, Inv, Looked, AllSpent, Untouched;
      NothingRefused();
      hide Refused;
      redoFlag := 0;
      while true
        invariant Shape() && redoFlag <= 1
        invariant forall k :: 0 <= k < |discards| ==> Safe(discards[k])
        invariant redoFlag == 1 ==>
                    fixit && inodeMap == used && !Agree(Looked(old(inodeMap), old(uninit)), used, 1, inodeCount + 1)
        invariant (discard ==> !Refused(discards)) && (redoFlag == 1 ==> !discard)
        invariant redoFlag == 1 ==>
                    forall h: nat :: h in uninit <==> h in old(uninit) && (!csum || Untouched(h, inodeCount + 1))
        invariant redoFlag == 0 ==> inodeMap == old(inodeMap) && uninit == old(uninit) && discard == old(discard)
        decreases 2 - redoFlag
      {
        Scan(redoFlag > 0);
        Scanned(redoFlag > 0);
        if problems > 0 && fixit {
          inodeMap := used;
          redoFlag := redoFlag + 1;
        } else {
          break;
        }
      }
    }

    lemma NothingRefused()
      ensures !Refused([])
    {
    }

    lemma Scanned(redo: bool)
      requires Inv(inodeCount + 1, redo)
      ensures Shape() && forall k :: 0 <= k < |discards| ==> Safe(discards[k])
      ensures problems == 0 <==> Agree(Seen(redo), used, 1, inodeCount + 1)
      ensures freeInodes == Clear(Seen(redo), 1, inodeCount + 1)
      ensures forall g :: 0 <= g < groupCount ==> freeArray[g] == Clear(Seen(redo), Lo(g), Lo(g + 1)) &&
                                                  dirArray[g] == Marked(Seen(redo) * dirs, Lo(g), Lo(g + 1))
      ensures redo ==> problems == 0
      ensures forall h: nat ::
                h in uninit <==> h in flagged && (redo || !csum || Untouched(h, inodeCount + 1))
      ensures discard && zeroes ==> AllSpent(discards, groupCount, used)
      ensures wanted && !discard ==> problems > 0 || changed || Refused(discards)
      ensures discard ==> wanted && !Refused(discards) && problems == 0
    {
      hide Clear, Marked, Looked, Safe, Refused;
      if discard && zeroes {
        SpentAgain(discards, Seen(redo));
      }
    }

    /** Discarding goes on only while the map agrees with what is in use. */
    lemma SpentAgain(ds: seq<TableRange>, seen: set<nat>)
      requires Shape() && AllSpent(ds, groupCount, seen) && Agree(seen, used, 1, inodeCount + 1)
      ensures AllSpent(ds, groupCount, used)
    {
      hide Lo, Discarded;
      LoEnds();
      forall g: nat, k: nat | g < groupCount && (k + 1) * perBlock <= perGroup && Unused(g, k, used)
        ensures Discarded(ds, g, k)
      {
        LoStep(g);
        LoMonotone(g + 1, groupCount);
        assert Spent(ds, g, perGroup, seen);
        assert Unused(g, k, seen);
      }
    }

    /** The count is that of the whole map exactly when no skipped inode has its bit set. */
    lemma LookedIsAll(bits: set<nat>, flags: set<nat>)
      requires Shape()
      ensures Clear(Looked(bits, flags), 1, inodeCount + 1) == Clear(bits, 1, inodeCount + 1) <==>
              forall x :: 1 <= x <= inodeCount && x in bits ==> !Skip(flags, GroupOf(x), x)
    {
      FewerBits(Looked(bits, flags), bits, 1, inodeCount + 1);
    }
  }

  /**
   The failure at an input: one group of eight inodes that is flagged, with nothing in use and one bit set. The group is
   skipped, so that all eight inodes are counted as free and the bit stays, whether or not repairs are accepted.
   */
  method SkippedUncounted(bit: nat, fixit: bool) returns (redoFlag: nat, counted: nat)
    requires 1 <= bit <= 8
    ensures redoFlag == 0 && counted == 8 && Clear({bit}, 1, 9) == 7
  {
    var b := new InodeBitmaps(8, 1, 1, {}, {}, {bit}, {0}, true, false, false, false, {}, {});
    assert b.Looked({bit}, {0}) == {} by {
      SmallQuotient(bit - 1, 8);
    }
    OneSet(bit, 9);
    NoneSet(9);
    redoFlag := b.Check(fixit);
    counted := b.freeInodes;
  }

  lemma {:induction false} NoneSet(hi: nat)
    requires hi >= 1
    ensures Clear({}, 1, hi) == hi - 1
  {
    if hi == 1 {
      assert Clear({}, 1, 1) == 0;
    } else {
      NoneSet(hi - 1);
    }
  }

  lemma {:induction false} OneSet(bit: nat, hi: nat)
    requires 1 <= bit && hi >= 1
    ensures Clear({bit}, 1, hi) == hi - 1 - if bit < hi then 1 else 0
  {
    if hi == 1 {
      assert Clear({bit}, 1, 1) == 0;
    } else {
      OneSet(bit, hi - 1);
    }
  }

  /** Leaving out bits raises the count, unless there are none to leave out. */
  lemma {:induction false} FewerBits(a: set<nat>, b: set<nat>, lo: nat, hi: nat)
    requires a <= b
    ensures Clear(a, lo, hi) >= Clear(b, lo, hi)
    ensures Clear(a, lo, hi) == Clear(b, lo, hi) <==> Agree(a, b, lo, hi)
    decreases hi
  {
    if lo >= hi {
      assert Agree(a, b, lo, hi);
    } else {
      FewerBits(a, b, lo, hi - 1);
      AgreeStep(a, b, lo, hi - 1);
    }
  }

  lemma BothClear(a: set<nat>, b: set<nat>, lo: nat, mid: nat, hi: nat)
    requires lo <= mid <= hi && forall x :: mid <= x < hi ==> x !in a && x !in b
    ensures Agree(a, b, lo, hi) <==> Agree(a, b, lo, mid)
  {
  }

  lemma AgreeStep(a: set<nat>, b: set<nat>, lo: nat, i: nat)
    requires lo <= i
    ensures Agree(a, b, lo, i + 1) <==> Agree(a, b, lo, i) && (i in a <==> i in b)
  {
  }
}
