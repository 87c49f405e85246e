/** Counting the references to shared attribute blocks in pass 1 (e2fsck-patch/e2fsck/pass1.c). */
module ExtAttr {
  import opened Bytes
  import opened Refcount

  /** The conversions between the 32-bit field `h_refcount` and `int`. */
  function Wrap(x: int): (r: nat)
    ensures r < WORD && (0 <= x < WORD ==> r == x)
  {
    x % WORD
  }

  /** The conversion of C to `int`. */
  function Signed(x: int): (r: int)
    ensures -WORD / 2 <= r < WORD / 2 && (r - x) % WORD == 0
  {
    if x % WORD < WORD / 2 then x % WORD else x % WORD - WORD
  }

  /** What the two tables hold for a block whose header says `h` once `kept` inodes have kept it. */
  function Pending(h: nat, kept: nat): int {
    var c := Signed(h - 1);
    if 0 <= c < kept - 1 then 0 else c - (kept - 1)
  }

  function Extra(h: nat, kept: nat): int {
    var c := Signed(h - 1);
    if 0 <= c < kept - 1 then kept - 1 - c else 0
  }

  /** Whatever the header said, adding the tables up gives the number of references. */
  lemma TablesBalance(h: nat, kept: nat)
    requires h < WORD && kept >= 1
    ensures Wrap(h - Pending(h, kept) + Extra(h, kept)) == Wrap(kept)
    ensures kept <= WORD / 2 ==> (Pending(h, kept) == Extra(h, kept) == 0 <==> h == kept)
  {
    var c := Signed(h - 1);
    assert c == h - 1 || c == h - 1 - WORD;
    assert (kept + WORD) % WORD == kept % WORD;
  }

  lemma OneIsZero(h: nat, kept: nat)
    ensures Pending(h, kept) == 0 || Extra(h, kept) == 0
  {
  }

  lemma WrapInside(a: int, b: int)
    ensures Wrap(Wrap(a) + b) == Wrap(a + b)
  {
  }

  /** One more reference moves exactly one of the tables by one. */
  lemma AnotherReference(h: nat, kept: nat)
    requires kept >= 1
    ensures Pending(h, kept) != 0 ==>
              Pending(h, kept + 1) == Pending(h, kept) - 1 && Extra(h, kept + 1) == Extra(h, kept)
    ensures Pending(h, kept) == 0 ==> Pending(h, kept + 1) == 0 && Extra(h, kept + 1) == Extra(h, kept) + 1
  {
  }

  ghost predicate Counted(b: nat, eaMap: set<nat>, kept: multiset<nat>, stored: map<nat, nat>, pending: Table,
                          extra: Table)
  {
    if b in eaMap then
      && kept[b] >= 1 && b in stored
      && Lookup(pending, b) == Pending(stored[b], kept[b]) && Lookup(extra, b) == Extra(stored[b], kept[b])
    else
      kept[b] == 0 && Lookup(pending, b) == 0 && Lookup(extra, b) == 0
  }

  /** What the tables hold at any moment of the scan over the inodes. */
  ghost predicate Balanced(eaMap: set<nat>, kept: multiset<nat>, stored: map<nat, nat>, pending: Table, extra: Table) {
    forall b :: Counted(b, eaMap, kept, stored, pending, extra)
  }

  /** The first inode that keeps `blk` stores what the header claims beyond it. */
  lemma FirstKept(blk: nat, eaMap: set<nat>, kept: multiset<nat>, stored: map<nat, nat>, pending: Table, extra: Table)
    requires Balanced(eaMap, kept, stored, pending, extra) && blk !in eaMap && blk in stored
    ensures Balanced(eaMap + {blk}, kept + multiset{blk}, stored,
                     Update(pending, blk, Signed(stored[blk] as int - 1)), extra)
    ensures Lookup(pending, blk) == 0
  {
    hide Update, Lookup, Signed;
    var map2, kept2 := eaMap + {blk}, kept + multiset{blk};
    var pending2 := Update(pending, blk, Signed(stored[blk] as int - 1));
    assert Counted(blk, eaMap, kept, stored, pending, extra);
    forall b: nat | true
      ensures Counted(b, map2, kept2, stored, pending2, extra)
    {
      assert Counted(b, eaMap, kept, stored, pending, extra);
    }
  }

  /** Every further one takes from the first table, or adds to the second when that has run out. */
  lemma KeptAgain(blk: nat, eaMap: set<nat>, kept: multiset<nat>, stored: map<nat, nat>, pending: Table, extra: Table)
    requires Balanced(eaMap, kept, stored, pending, extra) && blk in eaMap
    ensures var left := Lookup(pending, blk);
      if left != 0 then Balanced(eaMap, kept + multiset{blk}, stored, Update(pending, blk, left - 1), extra)
      else Balanced(eaMap, kept + multiset{blk}, stored, pending, Update(extra, blk, Lookup(extra, blk) + 1))
  {
    hide Update, Lookup, Pending, Extra;
    assert Counted(blk, eaMap, kept, stored, pending, extra);
    AnotherReference(stored[blk], kept[blk]);
    var left, kept2 := Lookup(pending, blk), kept + multiset{blk};
    var pending2 := if left != 0 then Update(pending, blk, left - 1) else pending;
    var extra2 := if left != 0 then extra else Update(extra, blk, Lookup(extra, blk) + 1);
    forall b: nat | true
      ensures Counted(b, eaMap, kept2, stored, pending2, extra2)
    {
      assert Counted(b, eaMap, kept, stored, pending, extra);
    }
  }

  /** Applying both tables to the headers leaves the number of references there, and each block is asked about once. */
  lemma AdjustBalances(b: nat, eaMap: set<nat>, kept: multiset<nat>, stored: map<nat, nat>, pending: Table,
                       extra: Table)
    requires Balanced(eaMap, kept, stored, pending, extra)
    ensures b in eaMap ==> b in stored
    ensures b in eaMap && stored[b] < WORD ==>
      Wrap(Wrap(stored[b] - Lookup(pending, b)) + Lookup(extra, b)) == Wrap(kept[b])
    ensures b !in eaMap ==> Lookup(pending, b) == Lookup(extra, b) == 0
    ensures Lookup(pending, b) == 0 || Lookup(extra, b) == 0
    ensures b in eaMap && kept[b] <= WORD / 2 && stored[b] < WORD ==>
      (Lookup(pending, b) == Lookup(extra, b) == 0 <==> stored[b] == kept[b])
  {
    hide Pending, Extra, Wrap;
    assert Counted(b, eaMap, kept, stored, pending, extra);
    if b in eaMap {
      OneIsZero(stored[b], kept[b]);
      if stored[b] < WORD {
        TablesBalance(stored[b], kept[b]);
        WrapInside(stored[b] - Lookup(pending, b), Lookup(extra, b));
      }
    }
  }

  /** The headers once the entries have been applied in order. */
  function Adjusted(stored: map<nat, nat>, els: seq<El>, sign: int, accepted: set<nat>): (r: map<nat, nat>)
    ensures r.Keys == stored.Keys
  {
    if els == [] then stored else
      var r, e := Adjusted(stored, els[..|els| - 1], sign, accepted), els[|els| - 1];
      if e.blk in accepted && e.blk in r then r[e.blk := Wrap(r[e.blk] + sign * e.count)] else r
  }

  lemma {:induction false} AdjustedElsewhere(stored: map<nat, nat>, els: seq<El>, sign: int, accepted: set<nat>, b: nat)
    requires b in stored && forall e :: e in els ==> e.blk != b
    ensures Adjusted(stored, els, sign, accepted)[b] == stored[b]
  {
    if els == [] {
    } else {
      AdjustedElsewhere(stored, els[..|els| - 1], sign, accepted, b);
      assert els[|els| - 1] in els;
    }
  }

  lemma {:induction false} AdjustedOnce(stored: map<nat, nat>, els: seq<El>, sign: int, accepted: set<nat>, e: El)
    requires Sorted(els) && e.blk in stored && e in els
    ensures Adjusted(stored, els, sign, accepted)[e.blk] ==
            if e.blk in accepted then Wrap(stored[e.blk] + sign * e.count) else stored[e.blk]
  {
    var front, last := els[..|els| - 1], els[|els| - 1];
    if last == e {
      AdjustedElsewhere(stored, front, sign, accepted, e.blk);
    } else {
      assert e in front && last.blk != e.blk;
      AdjustedOnce(stored, front, sign, accepted, e);
    }
  }

  /** The list holds the table, in order. */
  ghost predicate Lists(els: seq<El>, table: Table) {
    Sorted(els) && forall e :: e in els <==> e.blk in table && table[e.blk] == e.count
  }

  lemma AdjustedByTable(stored: map<nat, nat>, els: seq<El>, sign: int, accepted: set<nat>, table: Table, b: nat)
    requires Lists(els, table) && b in stored && stored[b] < WORD
    ensures Adjusted(stored, els, sign, accepted)[b] ==
            if b in accepted then Wrap(stored[b] + sign * Lookup(table, b)) else stored[b]
  {
    if b in table {
      AdjustedOnce(stored, els, sign, accepted, El(b, table[b]));
    } else {
      AdjustedElsewhere(stored, els, sign, accepted, b);
    }
  }

  lemma AdjustedStep(stored: map<nat, nat>, els: seq<El>, sign: int, accepted: set<nat>, e: El)
    ensures var r := Adjusted(stored, els, sign, accepted);
      Adjusted(stored, els + [e], sign, accepted) ==
      if e.blk in accepted && e.blk in r then r[e.blk := Wrap(r[e.blk] + sign * e.count)] else r
  {
    assert (els + [e])[..|els|] == els;
  }

  lemma NoZeros(els: seq<El>, table: Table)
    requires Represents(els, table)
    ensures forall b :: b in table ==> table[b] != 0
  {
  }

  /** Only blocks that have been seen are in the tables. */
  lemma OnlySeen(eaMap: set<nat>, kept: multiset<nat>, stored: map<nat, nat>, pending: Table, extra: Table)
    requires Balanced(eaMap, kept, stored, pending, extra)
    requires (forall b :: b in pending ==> pending[b] != 0) && forall b :: b in extra ==> extra[b] != 0
    ensures forall b :: b in pending || b in extra ==> b in eaMap && b in stored
  {
    forall b | b in pending || b in extra
      ensures b in eaMap && b in stored
    {
      assert Counted(b, eaMap, kept, stored, pending, extra);
    }
  }

  lemma AdjustedTwice(was: map<nat, nat>, high: seq<El>, low: seq<El>, accepted: set<nat>, b: nat,
                      eaMap: set<nat>, kept: multiset<nat>, pending: Table, extra: Table)
    requires Balanced(eaMap, kept, was, pending, extra) && b in was && was[b] < WORD
    requires Lists(high, pending) && Lists(low, extra)
    ensures Adjusted(Adjusted(was, high, -1, accepted), low, 1, accepted)[b] ==
            if b in accepted && b in eaMap then Wrap(kept[b]) else was[b]
  {
    hide Balanced, Adjusted, Lists, Wrap, Lookup;
    AdjustedByTable(was, high, -1, accepted, pending, b);
    AdjustedByTable(Adjusted(was, high, -1, accepted), low, 1, accepted, extra, b);
    AdjustBalances(b, eaMap, kept, was, pending, extra);
  }

  lemma AskedOnce(was: map<nat, nat>, high: seq<El>, low: seq<El>,
                  eaMap: set<nat>, kept: multiset<nat>, pending: Table, extra: Table)
    requires Balanced(eaMap, kept, was, pending, extra) && Lists(high, pending) && Lists(low, extra)
    requires (forall b :: b in pending ==> pending[b] != 0) && forall b :: b in extra ==> extra[b] != 0
    requires forall b :: b in was ==> was[b] < WORD
    ensures forall b :: b in eaMap ==> b in was
    ensures forall e, f :: e in high && f in low ==> e.blk != f.blk
    ensures forall b :: b in eaMap && kept[b] <= WORD / 2 ==> (Mentions(high + low, b) <==> was[b] != kept[b])
  {
    hide Balanced, Sorted, Wrap;
    forall e, f | e in high && f in low
      ensures e.blk != f.blk
    {
      AdjustBalances(e.blk, eaMap, kept, was, pending, extra);
    }
    forall b | b in eaMap
      ensures b in was && (kept[b] <= WORD / 2 ==> (Mentions(high + low, b) <==> was[b] != kept[b]))
    {
      AdjustBalances(b, eaMap, kept, was, pending, extra);
      MentionsListed(high, low, pending, extra, b);
    }
  }

  lemma MentionsListed(high: seq<El>, low: seq<El>, pending: Table, extra: Table, b: nat)
    requires Lists(high, pending) && Lists(low, extra)
    ensures Mentions(high + low, b) <==> b in pending || b in extra
  {
    var both := high + low;
    if Mentions(both, b) {
      var i :| 0 <= i < |both| && both[i].blk == b;
      assert both[i] in high || both[i] in low;
    }
    if b in pending {
      var i :| 0 <= i < |high| && high[i] == El(b, pending[b]);
      assert both[i].blk == b;
    } else if b in extra {
      var i :| 0 <= i < |low| && low[i] == El(b, extra[b]);
      assert both[|high| + i].blk == b;
    }
  }

  lemma AdjustedNone(stored: map<nat, nat>, sign: int, accepted: set<nat>)
    ensures Adjusted(stored, [], sign, accepted) == stored
  {
  }

  lemma InTable(els: seq<El>, table: Table, k: nat)
    requires Represents(els, table) && k < |els| && els[k].count != 0
    ensures els[k].blk in table
  {
  }

  class AttrBlocks {
    const firstBlock: nat
    const blockCount: nat
    const xattr: bool
    const refcount: RefcountTable
    const extra: RefcountTable

    /** `block_ea_map`, and `h_refcount` of each block on disk. */
    var eaMap: set<nat>
    var stored: map<nat, nat>

    /** One entry for each inode that kept its reference. */
    ghost var kept: multiset<nat>

    predicate InRange(blk: nat) {
      xattr && firstBlock <= blk < blockCount
    }

    ghost predicate Tables()
      reads this, refcount, extra, refcount.list, extra.list
    {
      refcount != extra && refcount.list != extra.list && refcount.Valid() && extra.Valid()
    }

    ghost predicate Valid()
      reads this, refcount, extra, refcount.list, extra.list
    {
      && Tables()
      && (forall b :: InRange(b) ==> b in stored)
      && (forall b :: b in stored ==> stored[b] < WORD)
      && Balanced(eaMap, kept, stored, refcount.table, extra.table)
      && 0 !in eaMap && forall b :: b in eaMap ==> InRange(b)
    }

    constructor (firstBlock: nat, blockCount: nat, xattr: bool, stored: map<nat, nat>)
      requires forall b :: firstBlock <= b < blockCount ==> b in stored
      requires forall b :: b in stored ==> stored[b] < WORD
      ensures Valid() && this.stored == stored && kept == multiset{} && fresh(refcount) && fresh(extra)
      ensures fresh(refcount.list) && fresh(extra.list)
    {
      this.firstBlock, this.blockCount, this.xattr := firstBlock, blockCount, xattr;
      refcount := new RefcountTable(0);
      extra := new RefcountTable(0);
      this.stored, eaMap, kept := stored, {}, multiset{};
    }

    /**
     `check_ext_attr` for an inode whose attribute block is `blk`; `sound` says that a first look at the block
     finds nothing that makes a repair clear the reference. Returns whether the inode keeps its reference.
     */
    method CheckExtAttr(blk: nat, sound: bool) returns (keeps: bool)
      requires Valid()
      modifies this`eaMap, this`kept, refcount, extra, refcount.list, extra.list
      ensures Valid()
      ensures keeps <==> blk != 0 && InRange(blk) && (blk in old(eaMap) || sound)
      ensures kept == if keeps then old(kept) + multiset{blk} else old(kept)
      ensures eaMap == if keeps then old(eaMap) + {blk} else old(eaMap)
    {
      hide Balanced, Lookup, Update, Signed, Represents;
      if blk == 0 {
        return false;
      }
      if !xattr || blk < firstBlock || blk >= blockCount {
        return false;
      }
      if blk in eaMap {
        KeptAgain(blk, eaMap, kept, stored, refcount.table, extra.table);
        var ok, _ := refcount.Decrement(blk);
        if !ok {
          var _ := extra.Increment(blk);
        }
      } else if sound {
        FirstKept(blk, eaMap, kept, stored, refcount.table, extra.table);
        StoreFirst(blk, Signed(stored[blk] as int - 1));
        eaMap := eaMap + {blk};
      } else {
        return false;
      }
      kept := kept + multiset{blk};
      return true;
    }

    method StoreFirst(blk: nat, count: int)
      requires Tables() && Lookup(refcount.table, blk) == 0
      modifies refcount, refcount.list
      ensures Tables() && (refcount.list == old(refcount.list) || fresh(refcount.list))
      ensures refcount.table == Update(old(refcount.table), blk, count)
    {
      if count != 0 {
        refcount.Store(blk, count);
      }
    }

    /**
     `adjust_extattr_refcount`: asks about every block of the table once, in ascending order, and rewrites the
     headers of those for which the repair is accepted.
     */
    method Adjust(t: RefcountTable, sign: int, accepted: set<nat>) returns (asked: seq<El>)
      requires t.Valid() && 0 !in t.table && forall b :: b in t.table ==> b in stored
      modifies this`stored, t`cursor
      ensures t.Valid() && Lists(asked, t.table)
      ensures stored == Adjusted(old(stored), asked, sign, accepted)
    {
      hide Represents, Nonzero, Sorted, Wrap, Adjusted;
      ghost var els := t.list[..t.count];
      NonzeroEmpty();
      asked := [];
      assert stored == Adjusted(stored, [], sign, accepted) by {
        AdjustedNone(stored, sign, accepted);
      }
      t.IntrBegin();
      while true
        invariant t.Valid() && t.list[..t.count] == els && t.cursor <= t.count
        invariant asked == Nonzero(els[..t.cursor])
        invariant stored == Adjusted(old(stored), asked, sign, accepted)
        decreases t.count - t.cursor
      {
        ghost var lo := t.cursor;
        var blk, n := t.IntrNext();
        if n != 0 {
          NonzeroNext(els, lo, t.cursor - 1);
          InTable(els, t.table, t.cursor - 1);
        } else {
          NonzeroSkip(els, lo, t.count);
        }
        if blk == 0 {
          break;
        }
        AdjustedStep(old(stored), asked, sign, accepted, El(blk, n));
        asked := asked + [El(blk, n)];
        if blk in accepted {
          stored := stored[blk := Wrap(stored[blk] + sign * n)];
        }
      }
      assert els[..t.count] == els;
      NonzeroIsTable(els, t.table);
    }

    /**
     The end of pass 1: what is left in the first table is subtracted, what is in the second is added. Every
     accepted header then holds the number of inodes that kept the block, whatever it held before; a block is
     asked about at most once, and exactly when its header was wrong.
     */
    method AdjustAll(accepted: set<nat>) returns (high: seq<El>, low: seq<El>)
      requires Valid()
      modifies this`stored, refcount`cursor, extra`cursor
      ensures stored.Keys == old(stored).Keys
      ensures forall b :: b in stored ==>
                            stored[b] == if b in accepted && b in eaMap then Wrap(kept[b]) else old(stored)[b]
      ensures Sorted(high) && Sorted(low) && forall e, f :: e in high && f in low ==> e.blk != f.blk
      ensures forall b :: b in eaMap && kept[b] <= WORD / 2 ==>
                            (Mentions(high + low, b) <==> old(stored)[b] != kept[b])
    {
      hide Balanced, Represents, Lookup, Adjusted, Sorted, Wrap, Mentions;
      ghost var was := stored;
      NoZeros(refcount.list[..refcount.count], refcount.table);
      NoZeros(extra.list[..extra.count], extra.table);
      OnlySeen(eaMap, kept, stored, refcount.table, extra.table);
      high := Adjust(refcount, -1, accepted);
      ghost var mid := stored;
      low := Adjust(extra, 1, accepted);
      forall b | b in stored
        ensures stored[b] == if b in accepted && b in eaMap then Wrap(kept[b]) else was[b]
      {
        AdjustedTwice(was, high, low, accepted, b, eaMap, kept, refcount.table, extra.table);
      }
      AskedOnce(was, high, low, eaMap, kept, refcount.table, extra.table);
    }
  }
}
