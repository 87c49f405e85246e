/** The entry loop of e2fsck pass 2 over a whole block: it ends, and what the block is then. */
module DirLoop {
  import opened Bytes
  import opened DirBlock
  import opened DirCheck

  /* ----- the entries of a block ----- */

  /** Where the entries from `from` to `end` start. */
  ghost function Starts(s: seq<byte>, from: nat, end: nat): (r: seq<nat>)
    requires from <= end <= |s| && Tiled(s, from, end)
    decreases end - from
  {
    if from == end then [] else [from] + Starts(s, from + RecLen(s, from), end)
  }

  lemma {:induction false} StartsFrame(s: seq<byte>, t: seq<byte>, from: nat, end: nat)
    requires from <= end <= |s| && |t| == |s| && Tiled(s, from, end) && forall i :: from <= i < end ==> t[i] == s[i]
    ensures Tiled(t, from, end) && Starts(t, from, end) == Starts(s, from, end)
    decreases end - from
  {
    hide Starts, Tiled;
    StartsUnfold(s, from, end);
    if from < end {
      assert RecLen(t, from) == RecLen(s, from) && NameLen(t, from) == NameLen(s, from);
      StartsFrame(s, t, from + RecLen(s, from), end);
      TiledFold(t, from, end);
    } else {
      NoneTiled(t, from);
    }
    StartsUnfold(t, from, end);
  }

  lemma NoneTiled(s: seq<byte>, o: nat)
    requires o <= |s|
    ensures Tiled(s, o, o)
  {
  }

  lemma TiledFold(s: seq<byte>, from: nat, end: nat)
    requires from < end <= |s| && Sound(s, from) && from + RecLen(s, from) <= end
    requires Tiled(s, from + RecLen(s, from), end)
    ensures Tiled(s, from, end)
  {
  }

  lemma StartsUnfold(s: seq<byte>, from: nat, end: nat)
    requires from <= end <= |s| && Tiled(s, from, end)
    ensures from == end ==> Starts(s, from, end) == []
    ensures from < end ==>
      && Sound(s, from) && from + RecLen(s, from) <= end && Tiled(s, from + RecLen(s, from), end)
      && Starts(s, from, end) == [from] + Starts(s, from + RecLen(s, from), end)
  {
  }

  lemma {:induction false} StartsSnoc(s: seq<byte>, from: nat, last: nat)
    requires from <= last <= |s| && Tiled(s, from, last) && Sound(s, last)
    ensures Tiled(s, from, last + RecLen(s, last))
    ensures Starts(s, from, last + RecLen(s, last)) == Starts(s, from, last) + [last]
    decreases last - from
  {
    hide Starts, Tiled;
    var end := last + RecLen(s, last);
    StartsUnfold(s, from, last);
    if from == last {
      NoneTiled(s, end);
      StartsUnfold(s, end, end);
    } else {
      StartsSnoc(s, from + RecLen(s, from), last);
    }
    TiledFold(s, from, end);
    StartsUnfold(s, from, end);
  }

  lemma {:induction false} StartsInside(s: seq<byte>, from: nat, end: nat, k: nat)
    requires from <= end <= |s| && Tiled(s, from, end) && k < |Starts(s, from, end)|
    ensures var o := Starts(s, from, end)[k]; from <= o && Sound(s, o) && o + RecLen(s, o) <= end
    decreases end - from
  {
    hide Starts, Tiled;
    StartsUnfold(s, from, end);
    if k == 0 {
      assert Starts(s, from, end)[0] == from;
    } else {
      StartsInside(s, from + RecLen(s, from), end, k - 1);
    }
  }

  /** An entry stays tidy while only lengths change. */
  lemma TidyFrame(s: seq<byte>, t: seq<byte>, o: nat, k: nat, c: Rules)
    requires Tidy(s, o, k, c) && |t| == |s| && Sound(t, o)
    requires forall i :: o <= i < o + RecLen(s, o) && i != o + 4 && i != o + 5 ==> t[i] == s[i]
    ensures Tidy(t, o, k, c)
  {
    assert NameLen(t, o) == NameLen(s, o) && Inode(t, o) == Inode(s, o);
    assert Name(t, o) == Name(s, o);
  }

  /** The entries up to `offset` are tidy, and `dotState` counts them from `base` on. */
  ghost predicate AllTidy(s: seq<byte>, offset: nat, dotState: nat, base: nat, c: Rules) {
    && offset <= |s| && Tiled(s, 0, offset) && dotState == base + |Starts(s, 0, offset)|
    && forall k :: 0 <= k < |Starts(s, 0, offset)| ==> Tidy(s, Starts(s, 0, offset)[k], base + k, c)
  }

  lemma TidyStarts(s: seq<byte>, base: nat, c: Rules)
    ensures AllTidy(s, 0, base, base, c)
  {
  }

  /** Moving past an entry that is tidy now. */
  lemma TidyEntry(s: seq<byte>, t: seq<byte>, o: nat, dotState: nat, base: nat, c: Rules)
    requires AllTidy(s, o, dotState, base, c) && |t| == |s| && Tidy(t, o, dotState, c)
    requires forall i :: 0 <= i < o ==> t[i] == s[i]
    ensures AllTidy(t, o + RecLen(t, o), dotState + 1, base, c)
  {
    hide Tidy, Tiled, Starts;
    assert Sound(t, o) by { TidySound(t, o, dotState, c); }
    StartsFrame(s, t, 0, o);
    StartsSnoc(t, 0, o);
    var was := Starts(s, 0, o);
    forall k | 0 <= k < |was|
      ensures Tidy(t, was[k], base + k, c)
    {
      StartsInside(s, 0, o, k);
      StartsInside(t, 0, o, k);
      TidyFrame(s, t, was[k], base + k, c);
    }
  }

  lemma TidySound(s: seq<byte>, o: nat, k: nat, c: Rules)
    requires Tidy(s, o, k, c)
    ensures Sound(s, o)
  {
  }

  /** A salvage leaves the entries before it tidy. */
  lemma TidySalvage(s: seq<byte>, o: nat, prev: int, dotState: nat, base: nat, c: Rules)
    requires BlockSize(|s|) && At(s, o, prev) && o < |s| && !Sound(s, o) && AllTidy(s, o, dotState, base, c)
    ensures var r := Salvage(s, o, prev, c.inodes); AllTidy(r.block, r.offset, dotState, base, c)
  {
    hide Salvage, Tiled, Starts, Tidy, Unsoundness, SetRecLen;
    var r := Salvage(s, o, prev, c.inodes);
    SalvageReach(s, o, prev, c.inodes);
    SalvageStep(s, o, prev, c.inodes);
    if r.offset == o {
      SalvageStays(s, o, prev, c.inodes);
      assert forall i :: 0 <= i < o ==> r.block[..o][i] == r.block[i] && s[..o][i] == s[i];
      StartsFrame(s, r.block, 0, o);
    } else {
      SalvageMoves(s, o, prev, c.inodes);
      FrontTiles(r.block, r.offset, prev);
      LastGrows(s, r.block, prev, o, r.offset);
    }
    var was := Starts(s, 0, o);
    forall k | 0 <= k < |was|
      ensures Tidy(r.block, was[k], base + k, c)
    {
      StartsInside(s, 0, o, k);
      StartsInside(r.block, 0, r.offset, k);
      if r.offset != o {
        EntriesApart(s, prev, o, k);
      }
      TidyFrame(s, r.block, was[k], base + k, c);
    }
  }

  /** The last entry grows: the entries start where they did. */
  lemma LastGrows(s: seq<byte>, t: seq<byte>, last: nat, end: nat, end': nat)
    requires TiledLast(s, last, end) && |t| == |s| && TiledLast(t, last, end') && Tiled(s, 0, end) && Tiled(t, 0, end')
    requires forall i :: 0 <= i < last ==> t[i] == s[i]
    ensures Starts(t, 0, end') == Starts(s, 0, end)
  {
    hide Starts, Tiled;
    StartsFrame(s, t, 0, last);
    StartsSnoc(s, 0, last);
    StartsSnoc(t, 0, last);
  }

  lemma EntriesApart(s: seq<byte>, last: nat, end: nat, k: nat)
    requires TiledLast(s, last, end) && Tiled(s, 0, end) && k < |Starts(s, 0, end)|
    ensures var o := Starts(s, 0, end)[k]; o == last || (Sound(s, o) && o + RecLen(s, o) <= last)
  {
    hide Starts, Tiled;
    StartsSnoc(s, 0, last);
    if k < |Starts(s, 0, last)| {
      StartsInside(s, 0, last, k);
    }
  }

  /* ----- the special entries ----- */

  /** The second entry, behind the one at 0 and before `end`, is named "..". */
  predicate SecondIsDotDot(s: seq<byte>, end: nat) {
    && HEADER_LEN <= |s| && RecLen(s, 0) + MIN_ENTRY <= end <= |s|
    && var o := RecLen(s, 0); NameLen(s, o) == 2 && s[o + 8] == DOT && s[o + 9] == DOT
  }

  /** It stays so while nothing below `end` changes but the length of an entry from it on. */
  lemma SecondStays(s: seq<byte>, t: seq<byte>, prev: nat, end: nat, end': nat)
    requires SecondIsDotDot(s, end) && |t| == |s| && end <= end' <= |s|
    requires MIN_ENTRY <= RecLen(s, 0) && (prev == RecLen(s, 0) || RecLen(s, 0) + MIN_ENTRY <= prev)
    requires forall i :: 0 <= i < end && i != prev + 4 && i != prev + 5 ==> t[i] == s[i]
    ensures SecondIsDotDot(t, end') && RecLen(t, 0) == RecLen(s, 0)
  {
  }

  /** How far the special entries of a first block have come. */
  ghost predicate SpecialsAt(s: seq<byte>, o: nat, prev: int, dotState: nat) {
    && (dotState == 1 ==> prev == 0)
    && (dotState >= 2 ==>
          && SecondIsDotDot(s, o) && HEADER_LEN <= |s| && MIN_ENTRY <= RecLen(s, 0)
          && (prev == RecLen(s, 0) || RecLen(s, 0) + MIN_ENTRY <= prev))
  }

  lemma SpecialsSalvaged(s: seq<byte>, o: nat, prev: int, inodes: nat, dotState: nat)
    requires BlockSize(|s|) && At(s, o, prev) && o < |s| && !Sound(s, o) && SpecialsAt(s, o, prev, dotState)
    ensures var r := Salvage(s, o, prev, inodes); SpecialsAt(r.block, r.offset, prev, dotState)
  {
    hide Salvage, Tiled, Unsoundness, SecondIsDotDot;
    SalvageReach(s, o, prev, inodes);
    SalvageStep(s, o, prev, inodes);
    if dotState >= 2 {
      var r := Salvage(s, o, prev, inodes);
      SecondStays(s, r.block, prev, o, r.offset);
    }
  }

  lemma SpecialsChecked(s: seq<byte>, t: seq<byte>, o: nat, prev: int, dotState: nat)
    requires BlockSize(|s|) && At(s, o, prev) && |t| == |s| && Sound(t, o) && forall i :: 0 <= i < o ==> t[i] == s[i]
    requires SpecialsAt(s, o, prev, dotState) && (dotState == 0 ==> prev < 0)
    requires dotState == 1 ==> NameLen(t, o) == 2 && t[o + 8] == DOT && t[o + 9] == DOT
    ensures SpecialsAt(t, o + RecLen(t, o), o, dotState + 1)
  {
    if dotState >= 2 {
      SecondStays(s, t, prev, o, o + RecLen(t, o));
    }
  }

  lemma SpecialsStart(s: seq<byte>)
    ensures SpecialsAt(s, 0, -1, 0)
  {
  }

  lemma SpecialsEnd(s: seq<byte>, prev: int, dotState: nat)
    requires BlockSize(|s|) && At(s, |s|, prev) && SpecialsAt(s, |s|, prev, dotState) && (dotState == 0 ==> prev < 0)
    ensures RecLen(s, 0) == |s| || SecondIsDotDot(s, |s|)
  {
  }

  /** The first entry is named ".". */
  ghost predicate DotFirst(s: seq<byte>, offset: nat, prev: int, dotState: nat) {
    && (dotState == 0 ==> prev < 0)
    && (dotState > 0 ==> HEADER_LEN < |s| && prev >= 0 && offset >= MIN_ENTRY && (prev > 0 ==> prev >= MIN_ENTRY) &&
                         NameLen(s, 0) == 1 && s[8] == DOT)
  }

  lemma DotSalvage(s: seq<byte>, o: nat, prev: int, dotState: nat, inodes: nat)
    requires BlockSize(|s|) && At(s, o, prev) && o < |s| && !Sound(s, o) && DotFirst(s, o, prev, dotState)
    ensures var r := Salvage(s, o, prev, inodes); DotFirst(r.block, r.offset, prev, dotState)
  {
    hide Salvage, Tiled, Unsoundness;
    SalvageReach(s, o, prev, inodes);
    SalvageStep(s, o, prev, inodes);
  }

  lemma DotEntry(s: seq<byte>, t: seq<byte>, o: nat, prev: int, dotState: nat)
    requires BlockSize(|s|) && At(s, o, prev) && |t| == |s| && Sound(t, o) && forall i :: 0 <= i < o ==> t[i] == s[i]
    requires DotFirst(s, o, prev, dotState) && (dotState == 0 ==> NameLen(t, o) == 1 && t[o + 8] == DOT)
    ensures DotFirst(t, o + RecLen(t, o), o, dotState + 1)
  {
    hide Tiled;
  }

  /** A first block whose "." takes no more room than two small entries and is followed by a good "..". */
  predicate WellBegun(s: seq<byte>) {
    Sound(s, 0) && RecLen(s, 0) <= 2 * MIN_ENTRY && IsDotDot(s, RecLen(s, 0))
  }

  /** How the ".." of such a block is on its way to being recorded. */
  ghost predicate Recording(s0: seq<byte>, s: seq<byte>, offset: nat, dotState: nat, dotdot: nat) {
    WellBegun(s0) ==>
      && (dotState == 0 ==> s == s0 && offset == 0)
      && (dotState == 1 ==> offset == RecLen(s0, 0) && KeptFrom(s0, s, offset))
      && (dotState >= 2 ==> dotdot == Inode(s0, RecLen(s0, 0)))
  }

  lemma RecordingSalvage(s0: seq<byte>, s: seq<byte>, o: nat, dotState: nat, dotdot: nat, t: seq<byte>, o': nat)
    requires !Sound(s, o) && Recording(s0, s, o, dotState, dotdot)
    ensures Recording(s0, t, o', dotState, dotdot)
  {
    if WellBegun(s0) && dotState == 1 {
      SoundFrame(s0, s, o);
    }
  }

  lemma SoundFrame(s: seq<byte>, t: seq<byte>, o: nat)
    requires KeptFrom(s, t, o)
    ensures Sound(t, o) == Sound(s, o) && IsDotDot(t, o) == IsDotDot(s, o)
    ensures Sound(s, o) ==> Inode(t, o) == Inode(s, o)
  {
  }

  lemma RecordingEntry(s0: seq<byte>, s: seq<byte>, t: seq<byte>, o: nat, dotState: nat, dotdot: nat, recorded: nat)
    requires Sound(s, o) && Sound(t, o) && |t| == |s| && Recording(s0, s, o, dotState, dotdot)
    requires dotState >= 1 || RecLen(s, o) <= 2 * MIN_ENTRY ==>
               RecLen(t, o) == RecLen(s, o) && KeptFrom(s, t, o + RecLen(t, o))
    requires recorded == if dotState == 1 && IsDotDot(s, o) then Inode(s, o) else 0
    ensures Recording(s0, t, o + RecLen(t, o), dotState + 1, if recorded != 0 then recorded else dotdot)
  {
    if WellBegun(s0) && dotState == 1 {
      SoundFrame(s0, s, o);
    }
  }

  /* ----- good entries at the front ----- */

  lemma ProgressStarts(s: seq<byte>, last: nat, end: nat, c: Rules)
    requires GoodFront(s, last, end, c)
    ensures Progress(s, s, 0, -1, last, end, c)
  {
  }

  lemma ProgressEnds(s0: seq<byte>, s: seq<byte>, prev: int, last: nat, end: nat, c: Rules)
    requires Progress(s0, s, |s|, prev, last, end, c)
    ensures KeptBelow(s0, s, last, end) && (end == |s0| ==> s == s0)
  {
  }

  /** How far the walk over the good front of the block has come. */
  ghost predicate Progress(s0: seq<byte>, s: seq<byte>, offset: nat, prev: int, last: nat, end: nat, c: Rules) {
    && TiledLast(s0, last, end) && |s| == |s0|
    && if offset <= last then s == s0 && Tiled(s0, offset, last) && AllSettled(s0, offset, end, c)
       else && end <= offset && (prev == last || end <= prev) && KeptBelow(s0, s, last, end)
            && (end == |s0| ==> s == s0)
  }

  /** Moving past an entry that is sound now. */
  lemma EntryStep(s: seq<byte>, t: seq<byte>, o: nat, prev: int)
    requires At(s, o, prev) && |t| == |s| && Sound(t, o) && forall i :: 0 <= i < o ==> t[i] == s[i]
    ensures At(t, o + RecLen(t, o), o)
  {
    hide Tiled;
    FrontTiles(s, o, prev);
    TiledFrame(s, t, 0, o);
  }

  lemma FrontTiles(s: seq<byte>, o: nat, prev: int)
    requires At(s, o, prev)
    ensures Tiled(s, 0, o)
  {
    if prev >= 0 {
      LastTiles(s, prev, o);
    }
  }

  /** A salvage changes the block from the entry on, or the length of the previous entry. */
  lemma SalvageReach(s: seq<byte>, o: nat, prev: int, inodes: nat)
    requires BlockSize(|s|) && At(s, o, prev) && o < |s| && !Sound(s, o)
    ensures var r := Salvage(s, o, prev, inodes);
      forall i :: 0 <= i < o && !(prev >= 0 && (i == prev + 4 || i == prev + 5)) ==> r.block[i] == s[i]
    ensures prev >= 0 && Salvage(s, o, prev, inodes).offset == o ==>
      forall i :: 0 <= i < o ==> Salvage(s, o, prev, inodes).block[i] == s[i]
  {
    hide Salvage, Tiled, Unsoundness;
    var r := Salvage(s, o, prev, inodes);
    if r.offset == o {
      SalvageStays(s, o, prev, inodes);
      assert forall i :: 0 <= i < o ==> r.block[..o][i] == r.block[i] && s[..o][i] == s[i];
    } else {
      SalvageMoves(s, o, prev, inodes);
    }
  }

  lemma SalvageProgress(s0: seq<byte>, s: seq<byte>, o: nat, prev: int, last: nat, end: nat, c: Rules)
    requires BlockSize(|s|) && At(s, o, prev) && o < |s| && !Sound(s, o)
    requires Progress(s0, s, o, prev, last, end, c)
    ensures var r := Salvage(s, o, prev, c.inodes); Progress(s0, r.block, r.offset, prev, last, end, c)
  {
    hide Salvage, Tiled, AllSettled, Unsoundness;
    var r := Salvage(s, o, prev, c.inodes);
    SalvageReach(s, o, prev, c.inodes);
    if o <= last {
      FrontIsSound(s0, o, last, end);
      assert false;
    } else if r.offset == o {
      SalvageStays(s, o, prev, c.inodes);
    } else {
      SalvageMoves(s, o, prev, c.inodes);
    }
  }

  lemma FrontIsSound(s: seq<byte>, o: nat, last: nat, end: nat)
    requires TiledLast(s, last, end) && o <= last && Tiled(s, o, last)
    ensures Sound(s, o)
  {
  }

  lemma EntryProgress(s0: seq<byte>, s: seq<byte>, t: seq<byte>, o: nat, prev: int, last: nat, end: nat, c: Rules)
    requires At(s, o, prev) && Sound(s, o) && |t| == |s| && Sound(t, o) && o < |s|
    requires forall i :: 0 <= i < o ==> t[i] == s[i]
    requires Settled(s, o, c) ==> t == s
    requires Progress(s0, s, o, prev, last, end, c)
    ensures Progress(s0, t, o + RecLen(t, o), o, last, end, c)
  {
    if o > last {
      assert forall i :: 0 <= i < end ==> t[i] == s[i];
    }
  }

  /* ----- what becomes of a block that needs salvaging and no other repair ----- */

  datatype Option<T> = None | Some(value: T)

  /**
   The block that the loop makes of a later block from entry `o` on, unless it comes to an entry that needs another
   repair: unsound entries are salvaged, settled ones passed by.
   */
  ghost function Outcome(s: seq<byte>, o: nat, prev: int, c: Rules): Option<seq<byte>>
    requires BlockSize(|s|) && At(s, o, prev)
    decreases |s| - o, Unsoundness(s, o)
  {
    if o == |s| then Some(s)
    else if !Sound(s, o) then
      SalvageStep(s, o, prev, c.inodes);
      var r := Salvage(s, o, prev, c.inodes);
      Outcome(r.block, r.offset, prev, c)
    else if Settled(s, o, c) then
      EntryStep(s, s, o, prev);
      Outcome(s, o + RecLen(s, o), o, c)
    else None
  }

  /** The loop, so far, leads where it would have led from the start. */
  ghost predicate OnTheWay(s0: seq<byte>, s: seq<byte>, offset: nat, prev: int, c: Rules)
    requires BlockSize(|s0|) && BlockSize(|s|) && At(s, offset, prev)
  {
    At(s0, 0, -1) && (Outcome(s0, 0, -1, c).None? || Outcome(s, offset, prev, c) == Outcome(s0, 0, -1, c))
  }

  lemma WaySalvage(s0: seq<byte>, s: seq<byte>, o: nat, prev: int, c: Rules)
    requires BlockSize(|s0|) && BlockSize(|s|) && At(s, o, prev) && o < |s| && !Sound(s, o)
    requires OnTheWay(s0, s, o, prev, c)
    ensures var r := Salvage(s, o, prev, c.inodes);
      BlockSize(|r.block|) && At(r.block, r.offset, prev) && OnTheWay(s0, r.block, r.offset, prev, c)
  {
    hide Salvage, Tiled, Unsoundness, Settled;
    SalvageStep(s, o, prev, c.inodes);
  }

  lemma WayEntry(s0: seq<byte>, s: seq<byte>, t: seq<byte>, o: nat, prev: int, c: Rules)
    requires BlockSize(|s0|) && BlockSize(|s|) && At(s, o, prev) && Sound(s, o) && OnTheWay(s0, s, o, prev, c)
    requires |t| == |s| && Sound(t, o) && At(t, o + RecLen(t, o), o) && (Settled(s, o, c) ==> t == s)
    ensures OnTheWay(s0, t, o + RecLen(t, o), o, c)
  {
    hide Salvage, Tiled, Unsoundness, Settled;
  }

  /** Settled entries are passed by. */
  lemma {:induction false} PassSettled(s: seq<byte>, o: nat, prev: int, end: nat, c: Rules) returns (last: int)
    requires BlockSize(|s|) && At(s, o, prev) && o <= end <= |s| && AllSettled(s, o, end, c)
    ensures At(s, end, last) && (o < end ==> last >= o) && (o == end ==> last == prev)
    ensures Outcome(s, o, prev, c) == Outcome(s, end, last, c)
    decreases end - o
  {
    hide Salvage, Tiled, Unsoundness;
    if o == end {
      last := prev;
    } else {
      EntryStep(s, s, o, prev);
      last := PassSettled(s, o + RecLen(s, o), o, end, c);
      hide Settled;
      OutcomeSettled(s, o, prev, c);
    }
  }

  lemma OutcomeSettled(s: seq<byte>, o: nat, prev: int, c: Rules)
    requires BlockSize(|s|) && At(s, o, prev) && o < |s| && Sound(s, o) && Settled(s, o, c)
    ensures At(s, o + RecLen(s, o), o) && Outcome(s, o, prev, c) == Outcome(s, o + RecLen(s, o), o, c)
  {
    hide Salvage, Tiled, Unsoundness, Settled;
    EntryStep(s, s, o, prev);
  }

  lemma OutcomeSalvage(s: seq<byte>, o: nat, prev: int, c: Rules)
    requires BlockSize(|s|) && At(s, o, prev) && o < |s| && !Sound(s, o)
    ensures var r := Salvage(s, o, prev, c.inodes);
      At(r.block, r.offset, prev) && Outcome(s, o, prev, c) == Outcome(r.block, r.offset, prev, c)
  {
    hide Salvage, Tiled, Unsoundness, Settled;
    SalvageStep(s, o, prev, c.inodes);
  }

  lemma OutcomeDone(s: seq<byte>, prev: int, c: Rules)
    requires BlockSize(|s|) && At(s, |s|, prev)
    ensures Outcome(s, |s|, prev, c) == Some(s)
  {
  }

  /** The entries before `o` are in order, the last of them at `last`; there may be none. */
  predicate FrontInOrder(s: seq<byte>, last: int, o: nat, c: Rules) {
    if last < 0 then last == -1 && o == 0 else GoodFront(s, last, o, c)
  }

  lemma FrontPassed(s: seq<byte>, last: int, o: nat, c: Rules)
    requires BlockSize(|s|) && FrontInOrder(s, last, o, c) && o % 4 == 0 && o <= |s|
    ensures At(s, o, last) && At(s, 0, -1) && Outcome(s, 0, -1, c) == Outcome(s, o, last, c)
  {
    hide Outcome, Settled;
    if last >= 0 {
      var l := PassSettled(s, 0, -1, o, c);
      LastUnique(s, l, last, o);
    }
  }

  lemma LastUnique(s: seq<byte>, a: nat, b: nat, end: nat)
    requires TiledLast(s, a, end) && TiledLast(s, b, end)
    ensures a == b
  {
    hide Starts, Tiled;
    StartsSnoc(s, 0, a);
    StartsSnoc(s, 0, b);
    var x, y := Starts(s, 0, a) + [a], Starts(s, 0, b) + [b];
    assert x == y && x[|x| - 1] == a && y[|y| - 1] == b;
  }

  /** A block that a salvage leaves with nothing but settled entries from there on. */
  lemma SalvageThenSettled(s: seq<byte>, last: int, o: nat, c: Rules)
    requires BlockSize(|s|) && FrontInOrder(s, last, o, c) && o % 4 == 0 && o < |s| && !Sound(s, o)
    requires last >= 0 || o + HEADER_LEN <= |s|
    requires last + HEADER_LEN <= |s| &&
             var r := Salvage(s, o, last, c.inodes); r.offset <= |s| && AllSettled(r.block, r.offset, |s|, c)
    ensures At(s, 0, -1) && Outcome(s, 0, -1, c) == Some(Salvage(s, o, last, c.inodes).block)
  {
    hide Outcome, Settled, Salvage, Tiled, AllSettled, Unsoundness, FrontInOrder;
    FrontPassed(s, last, o, c);
    OutcomeSalvage(s, o, last, c);
    var r := Salvage(s, o, last, c.inodes);
    var l := PassSettled(r.block, r.offset, last, |s|, c);
    OutcomeDone(r.block, l, c);
  }

  /** An unsound entry that is no hole, with a length that leads to a place inside the block. */
  predicate Absorbable(s: seq<byte>, o: nat) {
    && o + HEADER_LEN <= |s| && !Sound(s, o) && RecLen(s, o) > 0 && RecLen(s, o) % 4 == 0 && o + RecLen(s, o) <= |s|
    && !(RecLen(s, o) == HEADER_LEN && |s| - o - HEADER_LEN >= MIN_ENTRY)
  }

  /** An unsound entry that runs over the end of the block, and would be good if it ended there. */
  predicate Shortenable(s: seq<byte>, o: nat, inodes: nat) {
    && o + MIN_ENTRY <= |s| && RecLen(s, o) > |s| - o && NameLen(s, o) + HEADER_LEN <= |s| - o
    && Inode(s, o) <= inodes && NameIsWhole(s, o, NameLen(s, o))
  }

  /** An entry of length 8 with room for another behind it. */
  predicate Hole(s: seq<byte>, o: nat) {
    o + HEADER_LEN + MIN_ENTRY <= |s| && RecLen(s, o) == HEADER_LEN
  }

  /** Damage of one entry costs one entry: the one before takes exactly its bytes, and all behind it are kept. */
  lemma OneAbsorbed(s: seq<byte>, last: nat, o: nat, c: Rules)
    requires BlockSize(|s|) && GoodFront(s, last, o, c) && o % 4 == 0 && Absorbable(s, o)
    requires last + HEADER_LEN <= |s| &&
             AllSettled(SetRecLen(s, last, RecLen(s, last) + RecLen(s, o)), o + RecLen(s, o), |s|, c)
    ensures At(s, 0, -1) && Outcome(s, 0, -1, c) == Some(SetRecLen(s, last, RecLen(s, last) + RecLen(s, o)))
  {
    hide Outcome, Settled, AllSettled, SetRecLen, GoodFront, CloseHole;
    SalvageThenSettled(s, last, o, c);
  }

  /** An entry that runs over the end keeps its inode and its name. */
  lemma OneShortened(s: seq<byte>, last: int, o: nat, c: Rules)
    requires BlockSize(|s|) && FrontInOrder(s, last, o, c) && o % 4 == 0 && Shortenable(s, o, c.inodes)
    requires Settled(SetRecLen(s, o, |s| - o), o, c)
    ensures At(s, 0, -1) && Outcome(s, 0, -1, c) == Some(SetRecLen(s, o, |s| - o))
    ensures var t := SetRecLen(s, o, |s| - o);
      o + HEADER_LEN + NameLen(t, o) <= |t| && Inode(t, o) == Inode(s, o) && Name(t, o) == Name(s, o)
  {
    hide Outcome, Settled, SetRecLen, AllSettled, CloseHole;
    var t := SetRecLen(s, o, |s| - o);
    LengthSet(s, o, |s| - o);
    assert Name(t, o) == Name(s, o);
    OneSettled(t, o, c);
    SalvageThenSettled(s, last, o, c);
  }

  lemma OneSettled(s: seq<byte>, o: nat, c: Rules)
    requires o < |s| && Settled(s, o, c) && o + RecLen(s, o) == |s|
    ensures AllSettled(s, o, |s|, c)
  {
    hide Settled;
    assert AllSettled(s, |s|, |s|, c);
  }

  /** Damage of any other kind costs the rest of the block. */
  lemma RestAbsorbed(s: seq<byte>, last: nat, o: nat, c: Rules)
    requires BlockSize(|s|) && GoodFront(s, last, o, c) && o % 4 == 0 && o < |s| && !Sound(s, o)
    requires !Absorbable(s, o) && !Shortenable(s, o, c.inodes) && !Hole(s, o)
    ensures last + HEADER_LEN <= |s| && At(s, 0, -1)
    ensures Outcome(s, 0, -1, c) == Some(SetRecLen(s, last, RecLen(s, last) + (|s| - o)))
  {
    hide Outcome, Settled, AllSettled, SetRecLen, CloseHole, Tiled;
    var t := SetRecLen(s, last, RecLen(s, last) + (|s| - o));
    NothingSettled(t, c);
    SalvageThenSettled(s, last, o, c);
  }

  lemma NothingSettled(s: seq<byte>, c: Rules)
    ensures AllSettled(s, |s|, |s|, c)
  {
  }

  /** Without an entry before it, it is made an empty entry over the whole block. */
  lemma AllBlank(s: seq<byte>, c: Rules)
    requires BlockSize(|s|) && !Sound(s, 0) && !Shortenable(s, 0, c.inodes) && !Hole(s, 0)
    ensures At(s, 0, -1) && Outcome(s, 0, -1, c) == Some(BlankEntry(s, 0))
  {
    hide Outcome, AllSettled, SetRecLen, CloseHole, Tiled;
    var t := BlankEntry(s, 0);
    FillsBlock(s, t, 0);
    BlankSettled(s, c);
    OneSettled(t, 0, c);
    SalvageThenSettled(s, -1, 0, c);
  }

  lemma BlankSettled(s: seq<byte>, c: Rules)
    requires BlockSize(|s|)
    ensures Settled(BlankEntry(s, 0), 0, c) && RecLen(BlankEntry(s, 0), 0) == |s|
  {
    hide Illegal;
    var t := BlankEntry(s, 0);
    FillsBlock(s, t, 0);
    assert Inode(t, 0) == 0;
    assert RecLen(t, 0) == |s|;
  }

  /** Behind a closed hole every entry is kept, 8 bytes earlier, and the last of them takes the 8 bytes at the end. */
  lemma OneHoleClosed(s: seq<byte>, last: int, o: nat, c: Rules) returns (l: nat)
    requires BlockSize(|s|) && FrontInOrder(s, last, o, c) && o % 4 == 0 && Hole(s, o)
    requires AllSettled(CloseHole(s, o), o, |s| - HEADER_LEN, c)
    ensures var t := CloseHole(s, o);
      && TiledLast(t, l, |s| - HEADER_LEN) && At(s, 0, -1)
      && Outcome(s, 0, -1, c) == Some(SetRecLen(t, l, RecLen(t, l) + HEADER_LEN))
  {
    hide Outcome, Settled, AllSettled, SetRecLen, FrontInOrder, Tiled, Unsoundness;
    var t, end := CloseHole(s, o), |s| - HEADER_LEN;
    FrontPassed(s, last, o, c);
    OutcomeSalvage(s, o, last, c);
    assert Salvage(s, o, last, c.inodes) == Salvaged(t, o);
    var x := PassSettled(t, o, last, end, c);
    l := x;
    assert RecLen(t, end) == 0;
    OutcomeSalvage(t, end, l, c);
    assert Salvage(t, end, l, c.inodes) == Salvaged(SetRecLen(t, l, RecLen(t, l) + HEADER_LEN), |s|);
    OutcomeDone(SetRecLen(t, l, RecLen(t, l) + HEADER_LEN), l, c);
  }

  /** From `o` on, where the entries are counted from `k`, nothing needs to be done. */
  predicate InOrder(s: seq<byte>, o: nat, k: nat, c: Rules)
    decreases |s| - o
  {
    o == |s| || (InPlace(s, o, k, c) && o + RecLen(s, o) <= |s| && InOrder(s, o + RecLen(s, o), k + 1, c))
  }

  /** As long as everything is in order nothing has been done. */
  ghost predicate Idle(s0: seq<byte>, s: seq<byte>, o: nat, k: nat, c: Rules, k0: nat) {
    InOrder(s0, 0, k0, c) ==> s == s0 && InOrder(s, o, k, c)
  }

  lemma IdleSalvage(s0: seq<byte>, s: seq<byte>, o: nat, k: nat, t: seq<byte>, o': nat, c: Rules, k0: nat)
    requires Idle(s0, s, o, k, c, k0) && o < |s| && !Sound(s, o)
    ensures Idle(s0, t, o', k, c, k0)
  {
    hide Passes, Settled;
    SoundInPlace(s, o, k, c);
  }

  lemma IdleStarts(s0: seq<byte>, c: Rules, k0: nat)
    ensures Idle(s0, s0, 0, k0, c, k0)
  {
    hide InOrder;
  }

  lemma IdleEnds(s0: seq<byte>, s: seq<byte>, k: nat, c: Rules, k0: nat)
    requires Idle(s0, s, |s|, k, c, k0)
    ensures InOrder(s0, 0, k0, c) ==> s == s0
  {
    hide InOrder;
  }

  lemma SoundInPlace(s: seq<byte>, o: nat, k: nat, c: Rules)
    ensures InPlace(s, o, k, c) ==> Sound(s, o)
  {
    hide Passes;
  }

  lemma IdleEntry(s0: seq<byte>, s: seq<byte>, t: seq<byte>, o: nat, k: nat, c: Rules, k0: nat)
    requires Idle(s0, s, o, k, c, k0) && o < |s| && Sound(t, o) && (InPlace(s, o, k, c) ==> t == s)
    ensures Idle(s0, t, o + RecLen(t, o), k + 1, c, k0)
  {
    hide InPlace;
  }

  /* ----- the loop ----- */

  /** All that is known in the middle of the loop. */
  ghost predicate Underway(s0: seq<byte>, s: seq<byte>, offset: nat, prev: int, dotState: nat, dotdot: nat,
                           firstBlock: bool, last: nat, end: nat, c: Rules)
    requires BlockSize(|s0|)
  {
    && |s| == |s0| && At(s, offset, prev) && AllTidy(s, offset, dotState, if firstBlock then 0 else 2, c)
    && (firstBlock ==> DotFirst(s, offset, prev, dotState) && SpecialsAt(s, offset, prev, dotState) &&
                       Recording(s0, s, offset, dotState, dotdot))
    && (!firstBlock ==> dotState >= 2 && dotdot == 0 && OnTheWay(s0, s, offset, prev, c))
    && (!firstBlock && GoodFront(s0, last, end, c) ==> Progress(s0, s, offset, prev, last, end, c))
  }

  lemma UnderwayStarts(s: seq<byte>, firstBlock: bool, last: nat, end: nat, c: Rules)
    requires BlockSize(|s|)
    ensures Underway(s, s, 0, -1, if firstBlock then 0 else 2, 0, firstBlock, last, end, c)
  {
    hide AllTidy, GoodFront, Progress, SpecialsAt, Outcome;
    TidyStarts(s, if firstBlock then 0 else 2, c);
    SpecialsStart(s);
    if GoodFront(s, last, end, c) {
      ProgressStarts(s, last, end, c);
    }
  }

  lemma UnderwaySalvage(s0: seq<byte>, s: seq<byte>, o: nat, prev: int, dotState: nat, dotdot: nat,
                        firstBlock: bool, last: nat, end: nat, c: Rules)
    requires BlockSize(|s0|) && Underway(s0, s, o, prev, dotState, dotdot, firstBlock, last, end, c)
    requires o < |s| && !Sound(s, o)
    ensures var r := Salvage(s, o, prev, c.inodes);
      && Underway(s0, r.block, r.offset, prev, dotState, dotdot, firstBlock, last, end, c)
      && o <= r.offset <= |s| && (r.offset == o ==> Unsoundness(r.block, o) < Unsoundness(s, o))
  {
    hide Salvage, Tiled, Unsoundness, AllTidy, DotFirst, SpecialsAt, Recording, OnTheWay, GoodFront, Progress;
    SalvageStep(s, o, prev, c.inodes);
    TidySalvage(s, o, prev, dotState, if firstBlock then 0 else 2, c);
    if firstBlock {
      var r := Salvage(s, o, prev, c.inodes);
      DotSalvage(s, o, prev, dotState, c.inodes);
      SpecialsSalvaged(s, o, prev, c.inodes, dotState);
      RecordingSalvage(s0, s, o, dotState, dotdot, r.block, r.offset);
    } else {
      WaySalvage(s0, s, o, prev, c);
      if GoodFront(s0, last, end, c) {
        SalvageProgress(s0, s, o, prev, last, end, c);
      }
    }
  }

  /** What a pass through the body of the loop promises about a sound entry. */
  ghost predicate Passed(s: seq<byte>, t: seq<byte>, o: nat, dotState: nat, recorded: nat, c: Rules)
    requires Sound(s, o)
  {
    && |t| == |s| && Tidy(t, o, dotState, c) && (forall i :: 0 <= i < o ==> t[i] == s[i])
    && (dotState == 0 ==> NameLen(t, o) == 1 && t[o + 8] == DOT)
    && (dotState == 1 ==> NameLen(t, o) == 2 && t[o + 8] == DOT && t[o + 9] == DOT)
    && (dotState >= 1 || RecLen(s, o) <= 2 * MIN_ENTRY ==>
          RecLen(t, o) == RecLen(s, o) && KeptFrom(s, t, o + RecLen(t, o)))
    && recorded == (if dotState == 1 && IsDotDot(s, o) then Inode(s, o) else 0)
    && (dotState >= 2 ==> Repaired(s, t, o, c))
  }

  lemma UnderwayEntry(s0: seq<byte>, s: seq<byte>, t: seq<byte>, o: nat, prev: int, dotState: nat, dotdot: nat,
                      recorded: nat, firstBlock: bool, last: nat, end: nat, c: Rules)
    requires BlockSize(|s0|) && Underway(s0, s, o, prev, dotState, dotdot, firstBlock, last, end, c)
    requires Sound(s, o) && Passed(s, t, o, dotState, recorded, c)
    ensures var found := if recorded != 0 then recorded else dotdot;
      Sound(t, o) && Underway(s0, t, o + RecLen(t, o), o, dotState + 1, found, firstBlock, last, end, c)
  {
    hide Tiled, TiledLast, AllTidy, Tidy, DotFirst, SpecialsAt, Recording, OnTheWay, GoodFront, Progress, Settled,
         Repaired, IsDotDot;
    TidySound(t, o, dotState, c);
    EntryStep(s, t, o, prev);
    TidyEntry(s, t, o, dotState, if firstBlock then 0 else 2, c);
    if firstBlock {
      DotNone(s, o, prev, dotState);
      DotEntry(s, t, o, prev, dotState);
      SpecialsChecked(s, t, o, prev, dotState);
      RecordingEntry(s0, s, t, o, dotState, dotdot, recorded);
    } else {
      if Settled(s, o, c) {
        SettledStays(s, t, o, c);
      }
      WayEntry(s0, s, t, o, prev, c);
      if GoodFront(s0, last, end, c) {
        EntryProgress(s0, s, t, o, prev, last, end, c);
      }
    }
  }

  lemma DotNone(s: seq<byte>, o: nat, prev: int, dotState: nat)
    requires DotFirst(s, o, prev, dotState)
    ensures dotState == 0 ==> prev < 0
  {
  }

  /**
   The entry loop of `check_dir_block`. For any bytes it ends with entries that tile the block exactly and are all tidy;
   the first block of a directory starts with ".", followed by ".." if anything follows it, and a good ".." is recorded.
   A later block that needs no repair but salvaging becomes its outcome. Good entries at the front survive anything: if
   the entries up to `end` (the last one at `last`) are in order, only the length of that last one may grow.
   */
  method RunLoop(buf: array<byte>, firstBlock: bool, c: Rules, ghost last: nat, ghost end: nat) returns (dotdot: nat)
    requires BlockSize(buf.Length) && c.ino != 0
    modifies buf
    ensures Tiled(buf[..], 0, buf.Length)
    ensures forall k :: 0 <= k < |Starts(buf[..], 0, buf.Length)| ==>
              Tidy(buf[..], Starts(buf[..], 0, buf.Length)[k], if firstBlock then k else k + 2, c)
    ensures firstBlock ==> NameLen(buf[..], 0) == 1 && buf[8] == DOT
    ensures firstBlock ==> RecLen(buf[..], 0) == buf.Length || SecondIsDotDot(buf[..], buf.Length)
    ensures firstBlock && WellBegun(old(buf[..])) ==> dotdot == Inode(old(buf[..]), RecLen(old(buf[..]), 0))
    ensures !firstBlock ==> dotdot == 0
    ensures At(old(buf[..]), 0, -1)
    ensures !firstBlock && Outcome(old(buf[..]), 0, -1, c).Some? ==> buf[..] == Outcome(old(buf[..]), 0, -1, c).value
    ensures !firstBlock && GoodFront(old(buf[..]), last, end, c) ==> KeptBelow(old(buf[..]), buf[..], last, end)
    ensures InOrder(old(buf[..]), 0, if firstBlock then 0 else 2, c) ==> buf[..] == old(buf[..])
  {
    hide InPlace, Idle, InOrder, Salvage, Tiled, TiledLast, Unsoundness, Extent, Underway, Passed, Tidy, Repaired,
         IsDotDot, KeptFrom, WellBegun, SecondIsDotDot, GoodFront, KeptBelow, Outcome, Starts;
    ghost var s0 := buf[..];
    dotdot := 0;
    var offset, prev, dotState := 0, -1, if firstBlock then 0 else 2;
    ghost var k0 := dotState;
    assert Idle(s0, s0, 0, k0, c, k0) by {
      IdleStarts(s0, c, k0);
    }
    UnderwayStarts(s0, firstBlock, last, end, c);
    while offset < buf.Length
      invariant offset <= buf.Length && Underway(s0, buf[..], offset, prev, dotState, dotdot, firstBlock, last, end, c)
      invariant Idle(s0, buf[..], offset, dotState, c, k0)
      decreases buf.Length - offset, Unsoundness(buf[..], offset)
    {
      ghost var s := buf[..];
      UnderwayAt(s0, s, offset, prev, dotState, dotdot, firstBlock, last, end, c);
      if !Sound(buf[..], offset) {
        UnderwaySalvage(s0, s, offset, prev, dotState, dotdot, firstBlock, last, end, c);
        ghost var o := offset;
        offset := SalvageDirectory(buf, offset, prev, c.inodes);
        IdleSalvage(s0, s, o, dotState, buf[..], offset, c, k0);
      } else {
        var recorded := CheckEntry(buf, offset, dotState, c);
        NowPassed(s, buf[..], offset, dotState, recorded, c);
        UnderwayEntry(s0, s, buf[..], offset, prev, dotState, dotdot, recorded, firstBlock, last, end, c);
        IdleEntry(s0, s, buf[..], offset, dotState, c, k0);
        prev := offset;
        offset := offset + RecLen(buf[..], offset);
        dotState := dotState + 1;
        if recorded != 0 {
          dotdot := recorded;
        }
      }
    }
    UnderwayEnds(s0, buf[..], prev, dotState, dotdot, firstBlock, last, end, c);
    IdleEnds(s0, buf[..], dotState, c, k0);
  }

  lemma UnderwayAt(s0: seq<byte>, s: seq<byte>, o: nat, prev: int, dotState: nat, dotdot: nat,
                   firstBlock: bool, last: nat, end: nat, c: Rules)
    requires BlockSize(|s0|) && Underway(s0, s, o, prev, dotState, dotdot, firstBlock, last, end, c)
    ensures |s| == |s0| && At(s, o, prev)
  {
  }

  lemma NowPassed(s: seq<byte>, t: seq<byte>, o: nat, dotState: nat, recorded: nat, c: Rules)
    requires Sound(s, o) && |t| == |s| && Tidy(t, o, dotState, c) && (forall i :: 0 <= i < o ==> t[i] == s[i])
    requires dotState == 0 ==> NameLen(t, o) == 1 && t[o + 8] == DOT
    requires dotState == 1 ==> NameLen(t, o) == 2 && t[o + 8] == DOT && t[o + 9] == DOT
    requires dotState >= 1 || RecLen(s, o) <= 2 * MIN_ENTRY ==>
               RecLen(t, o) == RecLen(s, o) && KeptFrom(s, t, o + RecLen(t, o))
    requires recorded == if dotState == 1 && IsDotDot(s, o) then Inode(s, o) else 0
    requires dotState >= 2 ==> Repaired(s, t, o, c)
    ensures Passed(s, t, o, dotState, recorded, c)
  {
  }

  lemma UnderwayEnds(s0: seq<byte>, s: seq<byte>, prev: int, dotState: nat, dotdot: nat, firstBlock: bool, last: nat,
                     end: nat, c: Rules)
    requires BlockSize(|s0|) && Underway(s0, s, |s|, prev, dotState, dotdot, firstBlock, last, end, c)
    ensures |s| == |s0| && Tiled(s, 0, |s|)
    ensures forall k :: 0 <= k < |Starts(s, 0, |s|)| ==>
              Tidy(s, Starts(s, 0, |s|)[k], if firstBlock then k else k + 2, c)
    ensures firstBlock ==> NameLen(s, 0) == 1 && s[8] == DOT && (RecLen(s, 0) == |s| || SecondIsDotDot(s, |s|))
    ensures firstBlock && WellBegun(s0) ==> dotdot == Inode(s0, RecLen(s0, 0))
    ensures !firstBlock ==> dotdot == 0
    ensures At(s0, 0, -1)
    ensures !firstBlock && Outcome(s0, 0, -1, c).Some? ==> s == Outcome(s0, 0, -1, c).value
    ensures !firstBlock && GoodFront(s0, last, end, c) ==> KeptBelow(s0, s, last, end)
  {
    hide Tiled, Starts, Tidy, GoodFront, KeptBelow, Progress, SecondIsDotDot, SpecialsAt, Outcome, WellBegun;
    if firstBlock {
      SpecialsEnd(s, prev, dotState);
      TwoAtLeast(s, prev, dotState);
      BegunTwice(s0, s, dotState, dotdot);
    } else {
      OutcomeDone(s, prev, c);
      if GoodFront(s0, last, end, c) {
        ProgressEnds(s0, s, prev, last, end, c);
      }
    }
  }

  lemma TwoAtLeast(s: seq<byte>, prev: int, dotState: nat)
    requires BlockSize(|s|) && At(s, |s|, prev) && DotFirst(s, |s|, prev, dotState)
    ensures dotState >= 1
  {
  }

  /** A block with a good ".." in it has been walked past it. */
  lemma BegunTwice(s0: seq<byte>, s: seq<byte>, dotState: nat, dotdot: nat)
    requires Recording(s0, s, |s|, dotState, dotdot) && |s| == |s0| && dotState >= 1
    ensures WellBegun(s0) ==> dotdot == Inode(s0, RecLen(s0, 0))
  {
  }

  /**
   `check_dir_block` on an ordinary block, with what it makes of single damages. A bad entry whose length leads inside
   the block costs exactly itself; one that runs over the end keeps inode and name; behind an 8-byte hole every entry is
   kept; any other damage costs the rest of the block. A block that is in order throughout, the first or a later one, is
   not changed.
   */
  method CheckDirBlock(buf: array<byte>, firstBlock: bool, c: Rules, ghost last: nat, ghost end: nat)
    returns (dotdot: nat)
    requires BlockSize(buf.Length) && c.ino != 0
    modifies buf
    ensures Tiled(buf[..], 0, buf.Length)
    ensures forall k :: 0 <= k < |Starts(buf[..], 0, buf.Length)| ==>
              Tidy(buf[..], Starts(buf[..], 0, buf.Length)[k], if firstBlock then k else k + 2, c)
    ensures firstBlock ==> NameLen(buf[..], 0) == 1 && buf[8] == DOT
    ensures firstBlock ==> RecLen(buf[..], 0) == buf.Length || SecondIsDotDot(buf[..], buf.Length)
    ensures firstBlock && WellBegun(old(buf[..])) ==> dotdot == Inode(old(buf[..]), RecLen(old(buf[..]), 0))
    ensures !firstBlock ==> dotdot == 0
    ensures !firstBlock && GoodFront(old(buf[..]), last, end, c) ==> KeptBelow(old(buf[..]), buf[..], last, end)
    ensures InOrder(old(buf[..]), 0, if firstBlock then 0 else 2, c) ==> buf[..] == old(buf[..])
    ensures !firstBlock && GoodFront(old(buf[..]), last, end, c) && Absorbable(old(buf[..]), end) ==>
              var r := RecLen(old(buf[..]), end);
              var t := SetRecLen(old(buf[..]), last, RecLen(old(buf[..]), last) + r);
              AllSettled(t, end + r, |t|, c) ==> buf[..] == t
    ensures !firstBlock && GoodFront(old(buf[..]), last, end, c) && Shortenable(old(buf[..]), end, c.inodes) ==>
              var t := SetRecLen(old(buf[..]), end, buf.Length - end);
              Settled(t, end, c) ==>
                buf[..] == t && Inode(t, end) == Inode(old(buf[..]), end) && Name(t, end) == Name(old(buf[..]), end)
    ensures var s := old(buf[..]);
      !firstBlock && GoodFront(s, last, end, c) && end < |s| && !Sound(s, end) &&
      !Absorbable(s, end) && !Shortenable(s, end, c.inodes) && !Hole(s, end) ==>
        buf[..] == SetRecLen(s, last, RecLen(s, last) + (|s| - end))
    ensures var s := old(buf[..]);
      !firstBlock && !Sound(s, 0) && !Shortenable(s, 0, c.inodes) && !Hole(s, 0) ==> buf[..] == BlankEntry(s, 0)
    ensures !firstBlock && GoodFront(old(buf[..]), last, end, c) && Hole(old(buf[..]), end) ==>
              var t := CloseHole(old(buf[..]), end);
              AllSettled(t, end, |t| - HEADER_LEN, c) ==>
                exists l :: TiledLast(t, l, |t| - HEADER_LEN) && buf[..] == SetRecLen(t, l, RecLen(t, l) + HEADER_LEN)
  {
    hide Tiled, Tidy, Starts, SecondIsDotDot, WellBegun, Outcome, KeptBelow, AllSettled, Settled, SetRecLen, CloseHole,
         Name;
    ghost var s := buf[..];
    dotdot := RunLoop(buf, firstBlock, c, last, end);
    if !firstBlock {
      if GoodFront(s, last, end, c) {
        EndAligned(s, last, end, c);
        if Absorbable(s, end) &&
           AllSettled(SetRecLen(s, last, RecLen(s, last) + RecLen(s, end)), end + RecLen(s, end), |s|, c) {
          OneAbsorbed(s, last, end, c);
        }
        if Shortenable(s, end, c.inodes) && Settled(SetRecLen(s, end, |s| - end), end, c) {
          OneShortened(s, last, end, c);
        }
        if Hole(s, end) && AllSettled(CloseHole(s, end), end, |s| - HEADER_LEN, c) {
          ghost var l := OneHoleClosed(s, last, end, c);
        }
        if end < |s| && !Sound(s, end) && !Absorbable(s, end) && !Shortenable(s, end, c.inodes) && !Hole(s, end) {
          RestAbsorbed(s, last, end, c);
        }
      }
      if !Sound(s, 0) && !Shortenable(s, 0, c.inodes) && !Hole(s, 0) {
        AllBlank(s, c);
      }
    }
  }

  lemma EndAligned(s: seq<byte>, last: nat, end: nat, c: Rules)
    requires GoodFront(s, last, end, c)
    ensures end % 4 == 0 && end <= |s| && last + HEADER_LEN <= |s|
    ensures FrontInOrder(s, last, end, c)
  {
    hide AllSettled;
    TiledAligned(s, 0, last);
  }

  lemma {:induction false} TiledAligned(s: seq<byte>, from: nat, end: nat)
    requires from <= end <= |s| && Tiled(s, from, end)
    ensures (end - from) % 4 == 0
    decreases end - from
  {
    if from == end {
      assert end - from == 0;
    } else {
      TiledAligned(s, from + RecLen(s, from), end);
    }
  }
}
