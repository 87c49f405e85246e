/** The sorted table of reference counts (e2fsck-patch/e2fsck/ea_refcount.c). */
module Refcount {

  datatype El = El(blk: nat, count: int)

  /** The plain map the table stands for: absent blocks count 0, and no block is mapped to 0. */
  type Table = map<nat, int>

  function Lookup(table: Table, blk: nat): int {
    if blk in table then table[blk] else 0
  }

  /** The table after `blk` has been given the count `count`. */
  function Update(table: Table, blk: nat, count: int): (r: Table)
    ensures forall b :: Lookup(r, b) == if b == blk then count else Lookup(table, b)
  {
    if count == 0 then table - {blk} else table[blk := count]
  }

  ghost predicate Sorted(els: seq<El>) {
    forall i, j :: 0 <= i < j < |els| ==> els[i].blk < els[j].blk
  }

  predicate Mentions(els: seq<El>, blk: nat) {
    exists i :: 0 <= i < |els| && els[i].blk == blk
  }

  /** Entries with count 0 may stay in the list; every counted block is there. */
  ghost predicate Represents(els: seq<El>, table: Table) {
    && Sorted(els)
    && (forall i :: 0 <= i < |els| ==> Lookup(table, els[i].blk) == els[i].count)
    && (forall b :: b in table ==> table[b] != 0 && Mentions(els, b))
  }

  /** The entries `refcount_collapse` keeps. */
  function Nonzero(els: seq<El>): (r: seq<El>)
    ensures |r| <= |els| && forall e :: e in r <==> e in els && e.count != 0
  {
    if els == [] then [] else
      var rest, e := Nonzero(els[..|els| - 1]), els[|els| - 1];
      assert forall x :: x in els <==> x in els[..|els| - 1] || x == e;
      if e.count != 0 then rest + [e] else rest
  }

  lemma {:induction false} NonzeroSorted(els: seq<El>)
    requires Sorted(els)
    ensures Sorted(Nonzero(els))
  {
    if els == [] {
    } else {
      var front, e := els[..|els| - 1], els[|els| - 1];
      NonzeroSorted(front);
      assert forall x :: x in Nonzero(front) ==> x.blk < e.blk;
    }
  }

  /** Collapsing changes no count. */
  lemma CollapseRepresents(els: seq<El>, table: Table)
    requires Represents(els, table)
    ensures Represents(Nonzero(els), table)
  {
    var r := Nonzero(els);
    NonzeroSorted(els);
    forall i | 0 <= i < |r|
      ensures Lookup(table, r[i].blk) == r[i].count
    {
      assert r[i] in r;
    }
    forall b | b in table
      ensures Mentions(r, b)
    {
      var i :| 0 <= i < |els| && els[i].blk == b;
      assert els[i] in r;
    }
  }

  lemma NonzeroLength(els: seq<El>)
    ensures |Nonzero(els)| <= |els|
  {
  }

  lemma {:induction false} NonzeroAll(els: seq<El>)
    requires |Nonzero(els)| == |els|
    ensures Nonzero(els) == els
  {
    if els == [] {
    } else {
      NonzeroAll(els[..|els| - 1]);
    }
  }

  lemma NonzeroEmpty()
    ensures Nonzero([]) == []
  {
  }

  lemma NonzeroStep(els: seq<El>, i: nat)
    requires i < |els|
    ensures Nonzero(els[..i + 1]) == Nonzero(els[..i]) + if els[i].count != 0 then [els[i]] else []
  {
    assert els[..i + 1][..i] == els[..i];
  }

  /** Zero entries add nothing. */
  lemma {:induction false} NonzeroSkip(els: seq<El>, lo: nat, hi: nat)
    requires lo <= hi <= |els| && forall i :: lo <= i < hi ==> els[i].count == 0
    ensures Nonzero(els[..hi]) == Nonzero(els[..lo])
  {
    if lo == hi {
    } else {
      NonzeroSkip(els, lo, hi - 1);
      NonzeroStep(els, hi - 1);
    }
  }

  lemma NonzeroNext(els: seq<El>, lo: nat, hi: nat)
    requires lo <= hi < |els| && els[hi].count != 0 && forall i :: lo <= i < hi ==> els[i].count == 0
    ensures Nonzero(els[..hi + 1]) == Nonzero(els[..lo]) + [els[hi]]
  {
    NonzeroSkip(els, lo, hi);
    NonzeroStep(els, hi);
  }

  /** The counted entries are the table. */
  lemma NonzeroIsTable(els: seq<El>, table: Table)
    requires Represents(els, table)
    ensures Sorted(Nonzero(els))
    ensures forall e :: e in Nonzero(els) <==> e.blk in table && table[e.blk] == e.count
  {
    NonzeroSorted(els);
    forall e: El | e.blk in table && table[e.blk] == e.count
      ensures e in els && e.count != 0
    {
      var i :| 0 <= i < |els| && els[i].blk == e.blk;
      assert els[i] == e;
    }
  }

  lemma Found(els: seq<El>, table: Table, k: nat)
    requires Represents(els, table) && k < |els|
    ensures els[k] == El(els[k].blk, Lookup(table, els[k].blk))
  {
  }

  lemma Missing(els: seq<El>, table: Table, k: nat, blk: nat)
    requires Represents(els, table) && k <= |els|
    requires forall i :: 0 <= i < k ==> els[i].blk < blk
    requires forall i :: k <= i < |els| ==> blk < els[i].blk
    ensures blk !in table
  {
  }

  lemma LastIsLargest(els: seq<El>, blk: nat)
    requires Sorted(els) && (els != [] ==> els[|els| - 1].blk < blk)
    ensures forall i :: 0 <= i < |els| ==> els[i].blk < blk
    ensures forall i :: 0 <= i < |Nonzero(els)| ==> Nonzero(els)[i].blk < blk
  {
    forall i | 0 <= i < |Nonzero(els)|
      ensures Nonzero(els)[i].blk < blk
    {
      assert Nonzero(els)[i] in els;
    }
  }

  /** An entry for a block that has none can be inserted where it keeps the order. */
  lemma InsertRepresents(els: seq<El>, table: Table, k: nat, blk: nat)
    requires Represents(els, table) && k <= |els|
    requires forall i :: 0 <= i < k ==> els[i].blk < blk
    requires forall i :: k <= i < |els| ==> blk < els[i].blk
    ensures Represents(els[..k] + [El(blk, 0)] + els[k..], table)
  {
    var now := els[..k] + [El(blk, 0)] + els[k..];
    assert forall i :: 0 <= i < |now| ==> now[i] == if i < k then els[i] else if i == k then El(blk, 0) else els[i - 1];
    forall b | b in table
      ensures Mentions(now, b)
    {
      var i :| 0 <= i < |els| && els[i].blk == b;
      assert now[if i < k then i else i + 1] == els[i];
    }
    assert blk !in table;
  }

  lemma SetRepresents(els: seq<El>, table: Table, k: nat, count: int)
    requires Represents(els, table) && k < |els|
    ensures Represents(els[k := els[k].(count := count)], Update(table, els[k].blk, count))
  {
    var now, t := els[k := els[k].(count := count)], Update(table, els[k].blk, count);
    assert forall i :: 0 <= i < |now| ==> now[i].blk == els[i].blk;
    forall b | b in t
      ensures Mentions(now, b)
    {
      if b == els[k].blk {
        assert now[k].blk == b;
      } else {
        var i :| 0 <= i < |els| && els[i].blk == b;
        assert now[i].blk == b;
      }
    }
  }

  class RefcountTable {
    var count: nat
    var cursor: nat
    var list: array<El>

    /** What the list stands for. */
    ghost var table: Table

    ghost predicate Valid()
      reads this, list
    {
      count <= list.Length && Represents(list[..count], table)
    }

    /** `ea_refcount_create`. */
    constructor (size: nat)
      ensures Valid() && fresh(list) && table == map[] && list.Length == if size == 0 then 500 else size
    {
      count, cursor, table := 0, 0, map[];
      list := new El[if size == 0 then 500 else size](_ => El(0, 0));
    }

    /** `refcount_collapse`: drops the zero entries in place. */
    method Collapse()
      requires Valid()
      modifies this`count, list
      ensures Valid() && count <= old(count) && list[..count] == Nonzero(old(list[..count]))
    {
      hide Nonzero, Represents;
      ghost var was, kept := list[..count], [];
      NonzeroEmpty();
      var i, j := 0, 0;
      while i < count
        invariant 0 <= j <= i <= count == old(count)
        invariant kept == Nonzero(was[..i]) && |kept| == j && forall k :: 0 <= k < j ==> list[k] == kept[k]
        invariant forall k :: i <= k < count ==> list[k] == was[k]
      {
        NonzeroStep(was, i);
        if list[i].count != 0 {
          if i != j {
            list[j] := list[i];
          }
          kept := kept + [was[i]];
          j := j + 1;
        }
        i := i + 1;
      }
      assert was[..i] == was && list[..j] == kept;
      CollapseRepresents(was, table);
      count := j;
    }

    /** `insert_refcount_el`: makes room at `pos`, moving to a larger array when the list is full. */
    method Insert(blk: nat, pos: nat)
      requires Valid() && pos <= count
      requires forall i :: 0 <= i < pos ==> list[i].blk < blk
      requires forall i :: pos <= i < count ==> blk < list[i].blk
      modifies this`count, this`list, list
      ensures Valid() && (list == old(list) || fresh(list)) && count == old(count) + 1
      ensures list[pos] == El(blk, 0)
      ensures list.Length == old(list.Length) + if old(count) >= old(list.Length) then 100 else 0
    {
      ghost var els := list[..count];
      if count >= list.Length {
        Grow();
      }
      InsertRepresents(els, table, pos, blk);
      MoveUp(pos);
      list[pos] := El(blk, 0);
      count := count + 1;
      assert list[..count] == els[..pos] + [El(blk, 0)] + els[pos..];
    }

    method Grow()
      requires count <= list.Length
      modifies this`list
      ensures fresh(list) && list.Length == old(list.Length) + 100 && list[..count] == old(list[..count])
    {
      var smaller, bigger := list, new El[list.Length + 100](_ => El(0, 0));
      var i := 0;
      while i < smaller.Length
        invariant 0 <= i <= smaller.Length
        invariant bigger[..i] == smaller[..i]
        modifies bigger
      {
        bigger[i] := smaller[i];
        i := i + 1;
      }
      assert bigger[..count] == bigger[..i][..count];
      list := bigger;
    }

    /** The `memmove` of everything from `pos` on up by one. */
    method MoveUp(pos: nat)
      requires pos <= count < list.Length
      modifies list
      ensures list[..pos] == old(list[..pos])
      ensures list[pos + 1..count + 1] == old(list[pos..count])
    {
      var i := count;
      while i > pos
        invariant pos <= i <= count
        invariant list[..i] == old(list[..i])
        invariant list[i + 1..count + 1] == old(list[i..count])
      {
        list[i] := list[i - 1];
        assert list[i..count + 1] == [list[i]] + list[i + 1..count + 1];
        assert old(list[i - 1..count]) == [old(list[i - 1])] + old(list[i..count]);
        i := i - 1;
      }
    }

    /**
     `get_refcount_el`: where `blk` is, or nothing. With `create` the entry exists afterwards. The cursor, the
     collapse with its retry, and the growth leave the table as it was; the array grows only when there is no entry to
     drop, and without `create` it is not touched.
     */
    method Get(blk: nat, create: bool) returns (pos: int)
      requires Valid()
      modifies this`count, this`cursor, this`list, list
      ensures Valid() && (list == old(list) || fresh(list))
      ensures pos >= 0 ==> pos < count && list[pos] == El(blk, Lookup(table, blk))
      ensures pos < 0 ==> blk !in table && !create
      ensures !create ==> list == old(list) && count == old(count) && list[..] == old(list[..])
      ensures |Nonzero(old(list[..count]))| < old(list.Length) ==> list.Length == old(list.Length)
      decreases count >= list.Length, 1
    {
      hide Represents, Lookup, Sorted;
      if create && (count == 0 || blk > list[count - 1].blk) {
        pos := Append(blk);
        return;
      }
      if count == 0 {
        Missing([], table, 0, blk);
        return -1;
      }
      var low, found := Locate(blk);
      if found {
        return low;
      }
      if create {
        pos := InsertOrRetry(blk, low);
      } else {
        pos := -1;
      }
    }

    /** The cursor is tried first, then the binary search. */
    method Locate(blk: nat) returns (low: nat, found: bool)
      requires Valid() && count > 0
      modifies this`cursor
      ensures Valid() && low <= count
      ensures found ==> low < count && list[low] == El(blk, Lookup(table, blk))
      ensures !found ==> blk !in table && (forall i :: 0 <= i < low ==> list[i].blk < blk) &&
                         forall i :: low <= i < count ==> blk < list[i].blk
    {
      hide Represents, Lookup, Sorted;
      if cursor >= count {
        cursor := 0;
      }
      if blk == list[cursor].blk {
        Found(list[..count], table, cursor);
        low, found := cursor, true;
        cursor := cursor + 1;
        return;
      }
      low, found := Search(blk);
      if found {
        Found(list[..count], table, low);
        cursor := low + 1;
      } else {
        Missing(list[..count], table, low, blk);
      }
    }

    /** A full list is collapsed first; when that frees room the search starts over. */
    method InsertOrRetry(blk: nat, low: nat) returns (pos: int)
      requires Valid() && low <= count && (forall i :: 0 <= i < low ==> list[i].blk < blk)
      requires forall i :: low <= i < count ==> blk < list[i].blk
      modifies this`count, this`cursor, this`list, list
      ensures Valid() && (list == old(list) || fresh(list))
      ensures 0 <= pos < count && list[pos] == El(blk, Lookup(table, blk))
      ensures |Nonzero(old(list[..count]))| < old(list.Length) ==> list.Length == old(list.Length)
      decreases count >= list.Length, 0
    {
      hide Represents, Lookup, Sorted, Nonzero;
      NonzeroLength(list[..count]);
      if count >= list.Length {
        ghost var els := list[..count];
        Collapse();
        if count < list.Length {
          NonzeroLength(list[..count]);
          pos := Get(blk, true);
          return;
        }
        assert list[..count] == els by {
          NonzeroLength(els);
          NonzeroAll(els);
        }
        assert forall i :: 0 <= i < count ==> list[i] == list[..count][i] == els[i];
      }
      Insert(blk, low);
      pos := low;
      Found(list[..count], table, low);
    }

    /** A block larger than all others goes to the end. */
    method Append(blk: nat) returns (pos: nat)
      requires Valid() && (count > 0 ==> list[count - 1].blk < blk)
      modifies this`count, this`list, list
      ensures Valid() && (list == old(list) || fresh(list))
      ensures pos < count && list[pos] == El(blk, Lookup(table, blk))
      ensures |Nonzero(old(list[..count]))| < old(list.Length) ==> list.Length == old(list.Length)
    {
      ghost var els := list[..count];
      LastIsLargest(els, blk);
      hide Represents, Lookup, Sorted;
      if count >= list.Length {
        Collapse();
      }
      assert list[..count] == els || list[..count] == Nonzero(els);
      assert forall i :: 0 <= i < count ==> list[i] == list[..count][i];
      pos := count;
      Insert(blk, pos);
      Found(list[..count], table, pos);
    }

    /** The binary search: the entry of `blk`, or the place where it belongs. */
    method Search(blk: nat) returns (low: nat, found: bool)
      requires Valid()
      ensures low <= count
      ensures found ==> low < count && list[low].blk == blk
      ensures !found ==> forall i :: 0 <= i < low ==> list[i].blk < blk
      ensures !found ==> forall i :: low <= i < count ==> blk < list[i].blk
    {
      low := 0;
      var high := count - 1;
      assert Sorted(list[..count]);
      while low <= high
        invariant 0 <= low <= high + 1 <= count
        invariant forall i :: 0 <= i < low ==> list[i].blk < blk
        invariant forall i :: high < i < count ==> blk < list[i].blk
      {
        var mid := (low + high) / 2;
        if blk == list[mid].blk {
          return mid, true;
        }
        assert forall i, j :: 0 <= i < j < count ==> list[..count][i].blk < list[..count][j].blk;
        if blk < list[mid].blk {
          high := mid - 1;
        } else {
          low := mid + 1;
        }
      }
      return low, false;
    }

    method Set(pos: nat, count: int)
      requires Valid() && pos < this.count
      modifies this`table, list
      ensures Valid() && table == Update(old(table), old(list[pos].blk), count)
      ensures list[pos].count == count
    {
      SetRepresents(list[..this.count], table, pos, count);
      table := Update(table, list[pos].blk, count);
      ghost var els := list[..this.count];
      list[pos] := list[pos].(count := count);
      assert list[..this.count] == els[pos := els[pos].(count := count)];
    }

    /** `ea_refcount_fetch`. */
    method Fetch(blk: nat) returns (n: int)
      requires Valid()
      modifies this, list
      ensures Valid() && (list == old(list) || fresh(list))
      ensures table == old(table) && n == Lookup(table, blk)
      ensures list == old(list) && count == old(count) && list[..] == old(list[..])
    {
      var pos := Get(blk, false);
      n := if pos < 0 then 0 else list[pos].count;
    }

    /** `ea_refcount_increment`. */
    method Increment(blk: nat) returns (n: int)
      requires Valid()
      modifies this, list
      ensures Valid() && (list == old(list) || fresh(list))
      ensures n == Lookup(old(table), blk) + 1 && table == Update(old(table), blk, n)
    {
      var pos := Get(blk, true);
      n := list[pos].count + 1;
      Set(pos, n);
    }

    /** `ea_refcount_decrement`: refused exactly when the count is 0. */
    method Decrement(blk: nat) returns (ok: bool, n: int)
      requires Valid()
      modifies this, list
      ensures Valid() && (list == old(list) || fresh(list))
      ensures ok <==> Lookup(old(table), blk) != 0
      ensures n == if ok then Lookup(old(table), blk) - 1 else 0
      ensures table == if ok then Update(old(table), blk, n) else old(table)
      ensures list == old(list) && count == old(count)
    {
      var pos := Get(blk, false);
      if pos < 0 || list[pos].count == 0 {
        return false, 0;
      }
      ok, n := true, list[pos].count - 1;
      Set(pos, n);
    }

    /** `ea_refcount_store`. */
    method Store(blk: nat, count: int)
      requires Valid()
      modifies this, list
      ensures Valid() && (list == old(list) || fresh(list))
      ensures table == Update(old(table), blk, count)
      ensures count == 0 ==> list == old(list) && this.count == old(this.count)
    {
      var pos := Get(blk, count != 0);
      if pos >= 0 {
        Set(pos, count);
      }
    }

    /** `ea_refcount_intr_begin`. */
    method IntrBegin()
      modifies this`cursor
      ensures cursor == 0
    {
      cursor := 0;
    }

    /** `ea_refcount_intr_next`: the next counted entry at or after the cursor, or block 0. */
    method IntrNext() returns (blk: nat, n: int)
      requires Valid()
      modifies this`cursor
      ensures Valid() && old(cursor) <= cursor
      ensures n != 0 ==> old(cursor) < cursor <= count && list[cursor - 1] == El(blk, n) &&
                         forall i :: old(cursor) <= i < cursor - 1 ==> list[i].count == 0
      ensures n == 0 ==> blk == 0 && forall i :: old(cursor) <= i < count ==> list[i].count == 0
    {
      while true
        invariant old(cursor) <= cursor
        invariant forall i :: old(cursor) <= i < cursor && i < count ==> list[i].count == 0
        decreases count - cursor
      {
        if cursor >= count {
          return 0, 0;
        }
        if list[cursor].count != 0 {
          blk, n := list[cursor].blk, list[cursor].count;
          cursor := cursor + 1;
          return;
        }
        cursor := cursor + 1;
      }
    }

    /** A whole iteration: every counted block once, in ascending order. */
    method ListAll() returns (out: seq<El>)
      requires Valid() && 0 !in table
      modifies this`cursor
      ensures Valid() && Sorted(out)
      ensures forall e :: e in out <==> e.blk in table && table[e.blk] == e.count
    {
      hide Represents, Nonzero, Sorted;
      NonzeroEmpty();
      IntrBegin();
      out := [];
      ghost var els := list[..count];
      while true
        invariant Valid() && list[..count] == els && cursor <= count
        invariant out == Nonzero(els[..cursor])
        decreases count - cursor
      {
        ghost var lo := cursor;
        var blk, n := IntrNext();
        if n != 0 {
          NonzeroNext(els, lo, cursor - 1);
          Found(els, table, cursor - 1);
        } else {
          NonzeroSkip(els, lo, count);
        }
        if blk == 0 {
          break;
        }
        out := out + [El(blk, n)];
      }
      assert els[..count] == els;
      NonzeroIsTable(els, table);
    }
  }
}
