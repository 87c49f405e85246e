/** The table of directories (e2fsck-patch/e2fsck/dirinfo.c). */
module DirInfo {

  datatype Info = Info(ino: nat, dotdot: nat, parent: nat)

  /** The plain map the table stands for. */
  type Table = map<nat, Info>

  ghost predicate Sorted(infos: seq<Info>) {
    forall i, j :: 0 <= i < j < |infos| ==> infos[i].ino < infos[j].ino
  }

  predicate Lists(infos: seq<Info>, ino: nat) {
    exists i :: 0 <= i < |infos| && infos[i].ino == ino
  }

  ghost predicate Represents(infos: seq<Info>, table: Table) {
    && Sorted(infos)
    && Stored(infos, table)
    && (forall d :: d in table ==> Lists(infos, d))
  }

  ghost predicate Stored(infos: seq<Info>, table: Table) {
    forall i :: 0 <= i < |infos| ==> infos[i].ino in table && table[infos[i].ino] == infos[i]
  }

  lemma InsertRepresents(infos: seq<Info>, table: Table, k: nat, e: Info)
    requires Represents(infos, table) && k <= |infos|
    requires forall i :: 0 <= i < k ==> infos[i].ino < e.ino
    requires forall i :: k <= i < |infos| ==> e.ino < infos[i].ino
    ensures Represents(infos[..k] + [e] + infos[k..], table[e.ino := e])
  {
    var now, t := infos[..k] + [e] + infos[k..], table[e.ino := e];
    hide Sorted, Lists, Stored;
    InsertSorted(infos, k, e);
    InsertStored(infos, table, k, e);
    InsertLists(infos, k, e);
  }

  lemma InsertStored(infos: seq<Info>, table: Table, k: nat, e: Info)
    requires Stored(infos, table) && k <= |infos| && forall i :: 0 <= i < |infos| ==> infos[i].ino != e.ino
    ensures Stored(infos[..k] + [e] + infos[k..], table[e.ino := e])
  {
    var now, t := infos[..k] + [e] + infos[k..], table[e.ino := e];
    Inserted(infos, k, e);
    forall i | 0 <= i < |now|
      ensures now[i].ino in t && t[now[i].ino] == now[i]
    {
      assert i < k ==> now[i] == infos[i];
      assert i > k ==> now[i] == infos[i - 1];
    }
  }

  lemma InsertLists(infos: seq<Info>, k: nat, e: Info)
    requires k <= |infos|
    ensures var now := infos[..k] + [e] + infos[k..];
      Lists(now, e.ino) && forall d :: Lists(infos, d) ==> Lists(now, d)
  {
    var now := infos[..k] + [e] + infos[k..];
    Inserted(infos, k, e);
    assert now[k].ino == e.ino;
    forall d: nat | Lists(infos, d)
      ensures Lists(now, d)
    {
      var i :| 0 <= i < |infos| && infos[i].ino == d;
      assert now[if i < k then i else i + 1].ino == d;
    }
  }

  lemma Inserted(infos: seq<Info>, k: nat, e: Info)
    requires k <= |infos|
    ensures var now := infos[..k] + [e] + infos[k..];
      |now| == |infos| + 1 && now[k] == e && (forall i :: 0 <= i < k ==> now[i] == infos[i]) &&
      forall i :: k <= i < |infos| ==> now[i + 1] == infos[i]
  {
  }

  lemma InsertSorted(infos: seq<Info>, k: nat, e: Info)
    requires Sorted(infos) && k <= |infos|
    requires forall i :: 0 <= i < k ==> infos[i].ino < e.ino
    requires forall i :: k <= i < |infos| ==> e.ino < infos[i].ino
    ensures Sorted(infos[..k] + [e] + infos[k..])
  {
    var now := infos[..k] + [e] + infos[k..];
    forall i, j | 0 <= i < j < |now|
      ensures now[i].ino < now[j].ino
    {
      var a, b := if i < k then i else i - 1, if j < k then j else j - 1;
      assert i != k ==> now[i] == infos[a];
      assert j != k ==> now[j] == infos[b];
    }
  }

  lemma SetRepresents(infos: seq<Info>, table: Table, k: nat, e: Info)
    requires Represents(infos, table) && k < |infos| && infos[k].ino == e.ino
    ensures Represents(infos[k := e], table[e.ino := e])
  {
    var now, t := infos[k := e], table[e.ino := e];
    assert forall i :: 0 <= i < |now| ==> now[i].ino == infos[i].ino;
    forall d | d in t
      ensures Lists(now, d)
    {
      var i :| 0 <= i < |infos| && infos[i].ino == d;
      assert now[i].ino == d;
    }
  }

  lemma Found(infos: seq<Info>, table: Table, k: nat)
    requires Represents(infos, table) && k < |infos|
    ensures infos[k].ino in table && table[infos[k].ino] == infos[k]
  {
  }

  lemma Missing(infos: seq<Info>, table: Table, ino: nat)
    requires Represents(infos, table) && forall i :: 0 <= i < |infos| ==> infos[i].ino != ino
    ensures ino !in table
  {
  }

  lemma Around(infos: seq<Info>, table: Table, i: nat, ino: nat)
    requires Represents(infos, table) && i < |infos| && ino <= infos[i].ino && (i > 0 ==> infos[i - 1].ino < ino)
    ensures forall k :: 0 <= k < i ==> infos[k].ino < ino
    ensures forall k :: i <= k < |infos| ==> ino <= infos[k].ino && (infos[i].ino != ino ==> ino < infos[k].ino)
  {
  }

  lemma OneSide(infos: seq<Info>, table: Table, mid: nat, ino: nat)
    requires Represents(infos, table) && mid < |infos|
    ensures ino < infos[mid].ino ==> forall i :: mid <= i < |infos| ==> infos[i].ino != ino
    ensures ino > infos[mid].ino ==> forall i :: 0 <= i <= mid ==> infos[i].ino != ino
  {
  }

  class DirInfoDb {
    var count: nat
    var arr: array<Info>
    /** The entry the last iteration step returned, as an index; -1 for none. */
    var lastLookup: int

    ghost var table: Table

    ghost predicate Valid()
      reads this, arr
    {
      && count <= arr.Length && -1 <= lastLookup && (lastLookup >= 0 ==> lastLookup < count)
      && Represents(arr[..count], table)
    }

    constructor (size: nat)
      ensures Valid() && fresh(arr) && table == map[] && count == 0
    {
      count, lastLookup, table := 0, -1, map[];
      arr := new Info[size](_ => Info(0, 0, 0));
    }

    /** `ext2fs_resize_mem` by ten entries. A block that has moved makes the remembered entry invalid. */
    method Grow()
      requires Valid()
      modifies this`arr, this`lastLookup
      ensures Valid() && fresh(arr) && arr.Length == old(arr.Length) + 10 && arr[..count] == old(arr[..count])
    {
      hide Represents;
      var smaller, bigger := arr, new Info[arr.Length + 10](_ => Info(0, 0, 0));
      var i := 0;
      while i < smaller.Length
        invariant 0 <= i <= smaller.Length
        invariant bigger[..i] == smaller[..i]
        modifies bigger
      {
        bigger[i] := smaller[i];
        i := i + 1;
      }
      assert bigger[..count] == bigger[..i][..count] == smaller[..count];
      arr := bigger;
      if * {
        lastLookup := -1;
      }
    }

    /** Where an inode that is not larger than all others belongs. */
    method Place(ino: nat) returns (i: nat)
      requires Valid() && count > 0 && arr[count - 1].ino >= ino
      ensures i < count
      ensures (forall k :: 0 <= k < i ==> arr[k].ino < ino) && forall k :: i <= k < count ==> ino <= arr[k].ino
      ensures arr[i].ino != ino ==> forall k :: i <= k < count ==> ino < arr[k].ino
    {
      hide Represents;
      i := count - 1;
      while i > 0 && arr[i - 1].ino >= ino
        invariant 0 <= i < count && ino <= arr[i].ino
      {
        i := i - 1;
      }
      Around(arr[..count], table, i, ino);
      assert forall k :: 0 <= k < count ==> arr[..count][k] == arr[k];
    }

    method MoveUp(pos: nat)
      requires pos <= count < arr.Length
      modifies arr
      ensures arr[..pos] == old(arr[..pos]) && arr[pos + 1..count + 1] == old(arr[pos..count])
    {
      var j := count;
      while j > pos
        invariant pos <= j <= count
        invariant arr[..j] == old(arr[..j])
        invariant arr[j + 1..count + 1] == old(arr[j..count])
      {
        arr[j] := arr[j - 1];
        assert arr[j..count + 1] == [arr[j]] + arr[j + 1..count + 1];
        assert old(arr[j - 1..count]) == [old(arr[j - 1])] + old(arr[j..count]);
        j := j - 1;
      }
    }

    /** `e2fsck_add_dir_info`: adds or overwrites one entry; the ones already there only move towards the end. */
    method Add(ino: nat, parent: nat)
      requires Valid()
      modifies this, arr
      ensures Valid() && (arr == old(arr) || fresh(arr))
      ensures table == old(table)[ino := Info(ino, parent, parent)]
      ensures old(count) <= count && MovedUp(old(arr[..count]), arr[..count])
    {
      if count >= arr.Length {
        Grow();
      }
      if count > 0 && arr[count - 1].ino >= ino {
        var i := Place(ino);
        if arr[i].ino != ino {
          InsertAt(i, Info(ino, parent, parent));
        } else {
          SetAt(i, Info(ino, parent, parent));
        }
      } else {
        assert forall k :: 0 <= k < count ==> arr[..count][k].ino < ino;
        InsertAt(count, Info(ino, parent, parent));
      }
    }

    method InsertAt(i: nat, e: Info)
      requires Valid() && i <= count < arr.Length
      requires (forall k :: 0 <= k < i ==> arr[k].ino < e.ino) && forall k :: i <= k < count ==> e.ino < arr[k].ino
      modifies this`count, this`table, arr
      ensures Valid() && table == old(table)[e.ino := e] && count == old(count) + 1
      ensures MovedUp(old(arr[..count]), arr[..count])
    {
      hide Represents;
      ghost var infos := arr[..count];
      InsertRepresents(infos, table, i, e);
      MoveUp(i);
      arr[i] := e;
      count := count + 1;
      table := table[e.ino := e];
      assert arr[..count] == infos[..i] + [e] + infos[i..];
      InsertMoves(infos, i, e);
    }

    method SetAt(i: nat, e: Info)
      requires Valid() && i < count && arr[i].ino == e.ino
      modifies this`table, arr
      ensures Valid() && table == old(table)[e.ino := e]
      ensures MovedUp(old(arr[..count]), arr[..count])
    {
      hide Represents;
      ghost var infos := arr[..count];
      SetRepresents(infos, table, i, e);
      arr[i] := e;
      table := table[e.ino := e];
      assert arr[..count] == infos[i := e];
      SetMoves(infos, i, e);
    }

    /** `e2fsck_get_dir_info`: the entry of an inode exactly when it was added, whatever the last lookup was. */
    method Get(ino: nat) returns (k: int)
      requires Valid() && count > 0
      ensures k >= 0 ==> k < count && ino in table && arr[k] == table[ino]
      ensures k < 0 ==> ino !in table
    {
      hide Represents;
      k := Search(ino);
      if k >= 0 {
        Found(arr[..count], table, k);
      } else {
        Missing(arr[..count], table, ino);
      }
    }

    method Search(ino: nat) returns (k: int)
      requires Valid() && count > 0
      ensures k >= 0 ==> k < count && arr[k].ino == ino
      ensures k < 0 ==> forall i :: 0 <= i < count ==> arr[i].ino != ino
    {
      hide Represents;
      if lastLookup >= 0 && arr[lastLookup].ino == ino {
        return lastLookup;
      }
      var low, high := 0, count - 1;
      if ino == arr[low].ino {
        return low;
      }
      if ino == arr[high].ino {
        return high;
      }
      ghost var infos := arr[..count];
      assert forall i :: 0 <= i < count ==> infos[i] == arr[i];
      while low < high
        invariant 0 <= low <= high < count
        invariant forall i :: 0 <= i <= low ==> arr[i].ino != ino
        invariant forall i :: high <= i < count ==> arr[i].ino != ino
      {
        var mid := (low + high) / 2;
        if mid == low || mid == high {
          break;
        }
        if ino == arr[mid].ino {
          return mid;
        }
        OneSide(infos, table, mid, ino);
        if ino < arr[mid].ino {
          high := mid;
        } else {
          low := mid;
        }
      }
      return -1;
    }

    /** `e2fsck_dir_info_set_parent`. */
    method SetParent(ino: nat, parent: nat) returns (ok: bool)
      requires Valid() && count > 0
      modifies this`table, arr
      ensures Valid() && (ok <==> ino in old(table))
      ensures table == if ok then old(table)[ino := old(table)[ino].(parent := parent)] else old(table)
    {
      var k := Get(ino);
      ok := k >= 0;
      if ok {
        SetAt(k, arr[k].(parent := parent));
      }
    }

    /** `e2fsck_dir_info_set_dotdot`. */
    method SetDotDot(ino: nat, dotdot: nat) returns (ok: bool)
      requires Valid() && count > 0
      modifies this`table, arr
      ensures Valid() && (ok <==> ino in old(table))
      ensures table == if ok then old(table)[ino := old(table)[ino].(dotdot := dotdot)] else old(table)
    {
      var k := Get(ino);
      ok := k >= 0;
      if ok {
        SetAt(k, arr[k].(dotdot := dotdot));
      }
    }

    /** `e2fsck_dir_info_iter` at position `i`; -1 at the end. */
    method Next(i: nat) returns (ino: int)
      requires Valid()
      modifies this`lastLookup
      ensures Valid() && if i < count then ino == arr[i].ino && lastLookup == i else ino == -1
    {
      if i >= count {
        return -1;
      }
      lastLookup := i;
      return arr[i].ino;
    }

    /**
     An iteration in the course of which directories are added: `adds[k]` after the `k`-th step. Every directory that
     was there when it began is visited, and the table has what was added.
     */
    method Iterate(adds: seq<seq<(nat, nat)>>) returns (visited: seq<nat>)
      requires Valid()
      modifies this, arr
      ensures Valid() && forall d :: d in old(table) ==> d in visited
      ensures table == AddedBy(old(table), adds, |visited|)
    {
      hide Represents, MovedUp, WithAll, AddedBy;
      NothingAdded(table, adds);
      visited := [];
      ghost var first := arr[..count];
      var i, k := 0, 0;
      assert StillToCome(first, visited, arr[..count], 0) by {
        AllToCome(first);
      }
      ListsAll(first, table);
      while true
        invariant Valid() && (arr == old(arr) || fresh(arr)) && i <= count
        invariant StillToCome(first, visited, arr[..count], i)
        invariant k == |visited| && table == AddedBy(old(table), adds, k)
        decreases if k < |adds| then |adds| - k else 0, count - i
      {
        var ino := Next(i);
        if ino < 0 {
          break;
        }
        VisitOne(first, visited, arr[..count], i);
        visited := visited + [ino];
        i := i + 1;
        OneAdded(old(table), adds, k);
        if k < |adds| {
          AddAll(adds[k], first, visited, i);
        }
        k := k + 1;
      }
      AllVisited(first, visited, arr[..count], i);
    }

    method AddAll(adds: seq<(nat, nat)>, ghost first: seq<Info>, ghost visited: seq<nat>, ghost i: nat)
      requires Valid() && i <= count && StillToCome(first, visited, arr[..count], i)
      modifies this, arr
      ensures Valid() && (arr == old(arr) || fresh(arr)) && i <= count && StillToCome(first, visited, arr[..count], i)
      ensures table == WithAll(old(table), adds)
    {
      hide Represents, MovedUp, StillToCome, WithAll;
      var k := 0;
      assert adds[..0] == [];
      WithNone(table);
      while k < |adds|
        invariant 0 <= k <= |adds| && Valid() && (arr == old(arr) || fresh(arr)) && i <= count
        invariant StillToCome(first, visited, arr[..count], i) && table == WithAll(old(table), adds[..k])
      {
        WithOne(old(table), adds, k);
        ghost var was := arr[..count];
        Add(adds[k].0, adds[k].1);
        MovesKeep(first, visited, was, arr[..count], i);
        k := k + 1;
      }
      assert adds[..k] == adds;
    }
  }

  /** The table with all these directories added in order. */
  ghost function WithAll(table: Table, adds: seq<(nat, nat)>): Table {
    if adds == [] then table
    else
      var (ino, parent) := adds[|adds| - 1];
      WithAll(table, adds[..|adds| - 1])[ino := Info(ino, parent, parent)]
  }

  lemma WithNone(table: Table)
    ensures WithAll(table, []) == table
  {
  }

  lemma WithOne(table: Table, adds: seq<(nat, nat)>, k: nat)
    requires k < |adds|
    ensures WithAll(table, adds[..k + 1]) ==
            WithAll(table, adds[..k])[adds[k].0 := Info(adds[k].0, adds[k].1, adds[k].1)]
  {
    assert adds[..k + 1][..k] == adds[..k];
  }

  /** The table after `steps` steps of an iteration. */
  ghost function AddedBy(table: Table, adds: seq<seq<(nat, nat)>>, steps: nat): Table {
    if steps == 0 then table
    else
      var before := AddedBy(table, adds, steps - 1);
      if steps <= |adds| then WithAll(before, adds[steps - 1]) else before
  }

  lemma NothingAdded(table: Table, adds: seq<seq<(nat, nat)>>)
    ensures AddedBy(table, adds, 0) == table
  {
  }

  lemma OneAdded(table: Table, adds: seq<seq<(nat, nat)>>, k: nat)
    ensures var before := AddedBy(table, adds, k);
      AddedBy(table, adds, k + 1) == if k < |adds| then WithAll(before, adds[k]) else before
  {
  }

  /** The inode is listed at position `k` or later. */
  predicate Behind(infos: seq<Info>, ino: nat, k: int) {
    exists l :: 0 <= l < |infos| && k <= l && infos[l].ino == ino
  }

  /** Every entry is still there, no nearer to the front. */
  ghost predicate MovedUp(was: seq<Info>, now: seq<Info>) {
    |was| <= |now| && forall k :: 0 <= k < |was| ==> Behind(now, was[k].ino, k)
  }

  lemma InsertMoves(infos: seq<Info>, k: nat, e: Info)
    requires k <= |infos|
    ensures MovedUp(infos, infos[..k] + [e] + infos[k..])
  {
    var now := infos[..k] + [e] + infos[k..];
    forall i | 0 <= i < |infos|
      ensures Behind(now, infos[i].ino, i)
    {
      var l := if i < k then i else i + 1;
      assert now[l] == infos[i];
    }
  }

  lemma SetMoves(infos: seq<Info>, k: nat, e: Info)
    requires k < |infos| && infos[k].ino == e.ino
    ensures MovedUp(infos, infos[k := e])
  {
    forall i | 0 <= i < |infos|
      ensures Behind(infos[k := e], infos[i].ino, i)
    {
      assert infos[k := e][i].ino == infos[i].ino;
    }
  }

  /** The directories of the beginning that have not been visited are at or behind the position. */
  ghost predicate StillToCome(first: seq<Info>, visited: seq<nat>, now: seq<Info>, i: nat) {
    forall k :: 0 <= k < |first| ==>
                  first[k].ino in visited || Behind(now, first[k].ino, i)
  }

  lemma AllToCome(first: seq<Info>)
    ensures StillToCome(first, [], first, 0)
  {
  }

  lemma VisitOne(first: seq<Info>, visited: seq<nat>, now: seq<Info>, i: nat)
    requires StillToCome(first, visited, now, i) && i < |now|
    ensures StillToCome(first, visited + [now[i].ino], now, i + 1)
  {
    var more := visited + [now[i].ino];
    forall k | 0 <= k < |first|
      ensures first[k].ino in more || Behind(now, first[k].ino, i + 1)
    {
      if first[k].ino !in visited {
        var l :| 0 <= l < |now| && i <= l && now[l].ino == first[k].ino;
        assert l == i ==> more[|visited|] == first[k].ino;
      }
    }
  }

  lemma MovesKeep(first: seq<Info>, visited: seq<nat>, was: seq<Info>, now: seq<Info>, i: nat)
    requires StillToCome(first, visited, was, i) && MovedUp(was, now)
    ensures StillToCome(first, visited, now, i)
  {
    forall k | 0 <= k < |first| && first[k].ino !in visited
      ensures Behind(now, first[k].ino, i)
    {
      var l :| 0 <= l < |was| && i <= l && was[l].ino == first[k].ino;
      assert Behind(now, was[l].ino, l);
    }
  }

  lemma ListsAll(first: seq<Info>, table: Table)
    requires Represents(first, table)
    ensures forall d :: d in table ==> Lists(first, d)
  {
  }

  lemma AllVisited(first: seq<Info>, visited: seq<nat>, now: seq<Info>, i: nat)
    requires StillToCome(first, visited, now, i) && i >= |now|
    ensures forall d :: Lists(first, d) ==> d in visited
  {
  }
}
