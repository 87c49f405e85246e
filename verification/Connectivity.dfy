/** Connecting every directory to the root (e2fsck-patch/e2fsck/pass3.c). */
module Connectivity {
  import opened Distinct

  const EXT2_ROOT_INO := 2
  const MAX_DEPTH := 2048

  /** The parent pass 2 left for each known directory; 0 when it found none. */
  type Parents = map<nat, nat>

  /** Where `n` steps up from `d` lead, stopping at the root, at 0 and where nothing is known. */
  function Up(parents: Parents, d: nat, n: nat): nat
    decreases n
  {
    if n == 0 || d == EXT2_ROOT_INO || d == 0 || d !in parents then d else Up(parents, parents[d], n - 1)
  }

  ghost predicate Reaches(parents: Parents, d: nat) {
    exists n: nat :: Up(parents, d, n) == EXT2_ROOT_INO
  }

  /** The chain of parents from `d` comes back to a directory it has passed. */
  ghost predicate Circles(parents: Parents, d: nat) {
    exists i: nat, j: nat :: i < j && Comes(parents, d, i, j)
  }

  /** After `j` steps the chain is where it was after `i`, and that is neither the root nor nowhere. */
  ghost predicate Comes(parents: Parents, d: nat, i: nat, j: nat) {
    var x := Up(parents, d, i);
    x == Up(parents, d, j) && x != EXT2_ROOT_INO && x != 0
  }

  /** The chain of parents stops at the root, or at a directory without a parent. */
  ghost predicate Ends(parents: Parents, d: nat) {
    exists n: nat :: Up(parents, d, n) == EXT2_ROOT_INO || Up(parents, d, n) == 0
  }

  /** Every parent is itself a known directory, or 0. */
  ghost predicate Closed(parents: Parents) {
    EXT2_ROOT_INO in parents && 0 !in parents && forall d :: d in parents ==> parents[d] == 0 || parents[d] in parents
  }

  /** The parents once every directory that had none has been moved to lost+found. */
  function Reconnected(parents: Parents, lostFound: nat): (r: Parents)
    ensures r.Keys == parents.Keys
    ensures forall d :: d in parents ==> r[d] == if parents[d] == 0 then lostFound else parents[d]
  {
    map d | d in parents :: if parents[d] == 0 then lostFound else parents[d]
  }

  lemma {:induction false} EndsThenReaches(parents: Parents, lostFound: nat, d: nat, n: nat)
    requires Closed(parents) && lostFound in parents && parents[lostFound] == EXT2_ROOT_INO && d in parents
    requires Up(parents, d, n) == EXT2_ROOT_INO || Up(parents, d, n) == 0
    ensures Reaches(Reconnected(parents, lostFound), d)
    decreases n
  {
    var now := Reconnected(parents, lostFound);
    if d == EXT2_ROOT_INO {
      assert Up(now, d, 0) == EXT2_ROOT_INO;
    } else if parents[d] == 0 {
      assert Up(now, EXT2_ROOT_INO, 0) == EXT2_ROOT_INO;
      OneStep(now, lostFound, 0);
      OneStep(now, d, 1);
    } else {
      EndsThenReaches(parents, lostFound, parents[d], n - 1);
      var m: nat :| Up(now, parents[d], m) == EXT2_ROOT_INO;
      assert now[d] == parents[d];
      OneStep(now, d, m);
    }
  }

  lemma OneStep(parents: Parents, d: nat, n: nat)
    requires d in parents && d != 0 && Up(parents, parents[d], n) == EXT2_ROOT_INO
    ensures d != EXT2_ROOT_INO ==> Up(parents, d, n + 1) == EXT2_ROOT_INO
    ensures d == EXT2_ROOT_INO ==> Up(parents, d, 0) == EXT2_ROOT_INO
  {
  }

  lemma {:induction false} ReachesThenEnds(parents: Parents, lostFound: nat, d: nat, n: nat)
    requires Closed(parents) && d in parents
    requires Up(Reconnected(parents, lostFound), d, n) == EXT2_ROOT_INO
    ensures Ends(parents, d)
    decreases n
  {
    if d == EXT2_ROOT_INO {
      assert Up(parents, d, 0) == EXT2_ROOT_INO;
    } else if parents[d] == 0 {
      assert Up(parents, 0, 0) == 0;
      assert Up(parents, d, 1) == 0;
    } else {
      ReachesThenEnds(parents, lostFound, parents[d], n - 1);
      var m: nat :| Up(parents, parents[d], m) == EXT2_ROOT_INO || Up(parents, parents[d], m) == 0;
      assert Up(parents, d, m + 1) == Up(parents, parents[d], m);
    }
  }

  lemma {:induction false} UpAdd(parents: Parents, d: nat, a: nat, b: nat)
    ensures Up(parents, d, a + b) == Up(parents, Up(parents, d, a), b)
    decreases a
  {
    if a == 0 {
      assert Up(parents, d, a) == d;
    } else if d != EXT2_ROOT_INO && d != 0 && d in parents {
      UpAdd(parents, parents[d], a - 1, b);
    }
  }

  /** A directory that is its own ancestor is so again and again. */
  lemma {:induction false} Around(parents: Parents, x: nat, p: nat, k: nat)
    requires Up(parents, x, p) == x
    ensures Up(parents, x, k * p) == x
    decreases k
  {
    if k == 0 {
      assert k * p == 0;
    } else {
      Around(parents, x, p, k - 1);
      UpAdd(parents, x, (k - 1) * p, p);
      assert k * p == (k - 1) * p + p;
    }
  }

  /** A chain that ends has no circle. */
  lemma EndsNoCircle(parents: Parents, d: nat, n: nat, i: nat, j: nat)
    requires Up(parents, d, n) == EXT2_ROOT_INO || Up(parents, d, n) == 0
    requires i < j
    ensures !Comes(parents, d, i, j)
  {
    if Comes(parents, d, i, j) {
      var x, p := Up(parents, d, i), j - i;
      assert n * p >= n;
      var rest: nat := i + n * p - n;
      Stays(parents, Up(parents, d, n), rest);
      UpAdd(parents, d, n, rest);
      UpAdd(parents, d, i, p);
      UpAdd(parents, d, i, n * p);
      Around(parents, x, p, n);
    }
  }

  lemma Stays(parents: Parents, x: nat, n: nat)
    requires x == EXT2_ROOT_INO || x == 0
    ensures Up(parents, x, n) == x
  {
  }

  /** The first `n` directories of the chain. */
  function Chain(parents: Parents, d: nat, n: nat): (s: seq<nat>)
    ensures |s| == n && forall i :: 0 <= i < n ==> s[i] == Up(parents, d, i)
  {
    seq(n, i requires 0 <= i < n => Up(parents, d, i))
  }

  lemma {:induction false} UpKnown(parents: Parents, d: nat, n: nat)
    requires Closed(parents) && d in parents
    ensures Up(parents, d, n) in parents || Up(parents, d, n) == 0
    decreases n
  {
    if n == 0 || d == EXT2_ROOT_INO || d == 0 {
      assert Up(parents, d, n) == d;
    } else if parents[d] == 0 {
      Stays(parents, 0, n - 1);
    } else {
      UpKnown(parents, parents[d], n - 1);
    }
  }

  /** There are only so many directories: a chain without a circle ends within their number of steps. */
  lemma NoCircleEnds(parents: Parents, d: nat)
    requires Closed(parents) && d in parents && !Circles(parents, d)
    ensures Ends(parents, d)
  {
    var n := |parents|;
    var s := Chain(parents, d, n + 1);
    if forall i :: 0 <= i <= n ==> s[i] != EXT2_ROOT_INO && s[i] != 0 {
      forall i | 0 <= i < |s|
        ensures s[i] in parents.Keys
      {
        UpKnown(parents, d, i);
      }
      forall i, j | 0 <= i < j < |s|
        ensures s[i] != s[j]
      {
        assert !Comes(parents, d, i, j);
      }
      DistinctFit(s, parents.Keys);
    } else {
      var i :| 0 <= i <= n && (s[i] == EXT2_ROOT_INO || s[i] == 0);
      assert Up(parents, d, i) == EXT2_ROOT_INO || Up(parents, d, i) == 0;
    }
  }

  lemma EndsExactly(parents: Parents, d: nat)
    requires Closed(parents) && d in parents
    ensures Ends(parents, d) <==> !Circles(parents, d)
  {
    if Ends(parents, d) {
      var n: nat :| Up(parents, d, n) == EXT2_ROOT_INO || Up(parents, d, n) == 0;
      forall i: nat, j: nat | i < j
        ensures !Comes(parents, d, i, j)
      {
        EndsNoCircle(parents, d, n, i, j);
      }
    }
    if !Circles(parents, d) {
      NoCircleEnds(parents, d);
    }
  }

  /**
   Moving the offered directories to lost+found connects a directory exactly when its chain does not run in a circle.
   */
  lemma ConnectedExactly(parents: Parents, lostFound: nat, d: nat)
    requires Closed(parents) && lostFound in parents && parents[lostFound] == EXT2_ROOT_INO && d in parents
    ensures Reaches(Reconnected(parents, lostFound), d) <==> !Circles(parents, d)
  {
    EndsExactly(parents, d);
    if Ends(parents, d) {
      var n: nat :| Up(parents, d, n) == EXT2_ROOT_INO || Up(parents, d, n) == 0;
      EndsThenReaches(parents, lostFound, d, n);
    }
    if Reaches(Reconnected(parents, lostFound), d) {
      var n: nat :| Up(Reconnected(parents, lostFound), d, n) == EXT2_ROOT_INO;
      ReachesThenEnds(parents, lostFound, d, n);
    }
  }

  /** Two directories that are each other's parent have a parent, so they are never offered, and never connected. */
  lemma {:induction false} CircleStaysApart(lostFound: nat, n: nat)
    requires lostFound > 21
    ensures var parents := map[EXT2_ROOT_INO := EXT2_ROOT_INO, lostFound := EXT2_ROOT_INO, 20 := 21, 21 := 20];
      && Closed(parents) && Circles(parents, 20) && parents[20] != 0 && parents[21] != 0
      && Up(Reconnected(parents, lostFound), 20, n) != EXT2_ROOT_INO
      && Up(Reconnected(parents, lostFound), 21, n) != EXT2_ROOT_INO
  {
    var parents := map[EXT2_ROOT_INO := EXT2_ROOT_INO, lostFound := EXT2_ROOT_INO, 20 := 21, 21 := 20];
    assert Up(parents, 20, 2) == Up(parents, 21, 1) == Up(parents, 20, 0) == 20;
    assert Comes(parents, 20, 0, 2);
    if n == 0 {
      assert Up(Reconnected(parents, lostFound), 20, n) == 20;
    } else {
      CircleStaysApart(lostFound, n - 1);
    }
  }

  ghost function Members(ds: seq<nat>): set<nat> {
    set d | d in ds
  }

  /** The directories of the list that are in the table. */
  ghost function Known(ds: seq<nat>, parents: Parents): seq<nat> {
    if ds == [] then []
    else
      var n := |ds| - 1;
      Known(ds[..n], parents) + if ds[n] in parents then [ds[n]] else []
  }

  lemma NoMembers(parents: Parents)
    ensures Members([]) == {} && Known([], parents) == []
  {
  }

  lemma OneMember(ds: seq<nat>, d: nat, parents: Parents)
    ensures Members(ds + [d]) == Members(ds) + {d}
    ensures Known(ds + [d], parents) == Known(ds, parents) + if d in parents then [d] else []
  {
    assert (ds + [d])[..|ds|] == ds;
  }

  class Pass3 {
    const lostFound: nat
    /** The directories that are reconnected when that is offered, and those whose ".." is corrected when it differs. */
    const relinked: set<nat>
    const corrected: set<nat>
    var parent: Parents
    var dotdot: Parents
    /** `inode_done_map`. */
    var done: set<nat>
    /** The directories pass 3 offered to reconnect, in order. */
    var offers: seq<nat>
    /** Whether every question so far was answered with yes and every link to lost+found could be made. */
    var allFixed: bool

    /** What pass 2 left, whose parent has been looked up, and whose ".." has been compared. */
    ghost const start: Parents
    ghost var examined: seq<nat>
    ghost var settled: set<nat>

    constructor (parent: Parents, dotdot: Parents, lostFound: nat, relinked: set<nat>, corrected: set<nat>)
      requires parent.Keys == dotdot.Keys && (EXT2_ROOT_INO in parent ==> parent[EXT2_ROOT_INO] != 0)
      ensures Inv() && this.parent == start == parent && this.dotdot == dotdot && this.lostFound == lostFound
      ensures done == {EXT2_ROOT_INO} && settled == {} && allFixed
      ensures this.relinked == relinked && this.corrected == corrected
    {
      this.relinked, this.corrected := relinked, corrected;
      this.lostFound, this.parent, this.dotdot, start := lostFound, parent, dotdot, parent;
      done, offers, allFixed, examined, settled := {EXT2_ROOT_INO}, [], true, [], {};
    }

    /** Every question would be answered with yes. */
    ghost predicate Obliging() {
      forall d :: d in start ==> d in relinked && d in corrected
    }

    lemma AllLinked(d: nat)
      ensures Obliging() && d in start ==> d in relinked
    {
    }

    /** Where a directory belongs: its parent, or lost+found. */
    ghost function Home(d: nat): nat
      requires d in start
    {
      if start[d] == 0 then lostFound else start[d]
    }

    /** Each directory is looked up once, when it is first done, and offered exactly when pass 2 found no parent. */
    ghost predicate Looked()
      reads this`done, this`examined, this`offers
    {
      && EXT2_ROOT_INO in done && NoDup(examined) && NoDup(offers)
      && (forall d :: d in examined ==> d in done && d in start && d != EXT2_ROOT_INO)
      && (forall d :: d in done && d in start && d != EXT2_ROOT_INO ==> d in examined)
      && (forall d :: d in offers <==> d in examined && start[d] == 0)
    }

    ghost predicate Parented()
      reads this`parent, this`dotdot, this`done, this`examined, this`settled, this`allFixed
    {
      && parent.Keys == dotdot.Keys == start.Keys && settled <= done
      && (forall d :: d in start && d !in done ==> parent[d] == start[d])
      && (forall d :: d in start && d !in settled && allFixed ==>
          parent[d] == if d in examined then Home(d) else start[d])
      && (forall d :: d in start && d in settled && allFixed ==> dotdot[d] == Home(d))
    }

    ghost predicate Inv()
      reads this
    {
      Looked() && Parented() && (EXT2_ROOT_INO in start ==> start[EXT2_ROOT_INO] != 0) && (Obliging() ==> allFixed)
    }

    /** `fix_dotdot`. The parent is set to lost+found even when ".." is not. */
    method FixDotDot(d: nat, p: nat)
      requires d in parent && d in dotdot
      modifies this`parent, this`dotdot
      ensures dotdot == old(dotdot)[d := p] && parent == old(parent)[d := lostFound]
    {
      dotdot := dotdot[d := p];
      parent := parent[d := lostFound];
    }

    /** The offer to reconnect a directory without a parent. */
    method Offer(d: nat)
      requires d in parent && d in dotdot
      modifies this`parent, this`dotdot, this`offers, this`allFixed
      ensures offers == old(offers) + [d]
      ensures allFixed == (old(allFixed) && d in relinked)
      ensures if d in relinked
              then dotdot == old(dotdot)[d := lostFound] && parent == old(parent)[d := lostFound]
              else dotdot == old(dotdot) && parent == old(parent)
    {
      offers := offers + [d];
      if d in relinked {
        FixDotDot(d, lostFound);
      } else {
        allFixed := false;
      }
    }

    method MarkUnknown(ino: nat)
      requires Inv() && ino !in parent
      modifies this`done
      ensures Inv() && done == old(done) + {ino}
    {
      done := done + {ino};
    }

    /** Looks at the parent of a directory that was not done before, and offers the directory if there is none. */
    method LookUp(ino: nat, seen: bool)
      requires Inv() && ino !in done && ino in parent && !seen
      modifies this`done, this`examined, this`offers, this`parent, this`dotdot, this`allFixed
      ensures Inv() && done == old(done) + {ino} && old(parent[ino]) == start[ino] && (allFixed ==> old(allFixed))
      ensures examined == old(examined) + [ino]
    {
      hide Obliging;
      AllLinked(ino);
      done := done + {ino};
      examined := examined + [ino];
      if parent[ino] == 0 || seen {
        Offer(ino);
      }
    }

    /**
     The directories looked at on the way up from `ino`, at most `k` of them: up to one that is done, one without a
     parent or one that is not known, which is the bad end. `k` stands for the restart, which ends at once.
     */
    ghost function Way(seen: set<nat>, ino: nat, k: nat): (r: (seq<nat>, bool))
      decreases k
    {
      if k == 0 || ino in seen then ([], true)
      else if ino !in start then ([ino], false)
      else if start[ino] == 0 then ([ino], true)
      else
        var (rest, known) := Way(seen + {ino}, start[ino], k - 1);
        ([ino] + rest, known)
    }

    lemma WayStep(seen: set<nat>, ino: nat, k: nat)
      requires ino in start && start[ino] != 0 && ino !in seen && k > 0
      ensures Way(seen, ino, k) ==
              ([ino] + Way(seen + {ino}, start[ino], k - 1).0, Way(seen + {ino}, start[ino], k - 1).1)
    {
    }

    lemma WayEnds(seen: set<nat>, ino: nat, k: nat)
      ensures k == 0 || ino in seen ==> Way(seen, ino, k) == ([], true)
      ensures k > 0 && ino !in seen && ino !in start ==> Way(seen, ino, k) == ([ino], false)
      ensures k > 0 && ino !in seen && ino in start && start[ino] == 0 ==> Way(seen, ino, k) == ([ino], true)
    {
    }

    /**
     The climb of `check_directory`. With the done map looked at first, the second attempt with loop detection ends as
     soon as it starts, so nothing is ever offered because of a loop.
     */
    method Climb(dir: nat) returns (known: bool)
      requires Inv()
      modifies this`done, this`examined, this`offers, this`parent, this`dotdot, this`allFixed
      ensures Inv() && dir in done && old(done) <= done && (allFixed ==> old(allFixed))
      ensures Closed(start) && dir in start ==> known
      ensures var (way, end) := Way(old(done), dir, MAX_DEPTH + 2);
        known == end && done == old(done) + Members(way) && examined == old(examined) + Known(way, start)
    {
      hide Looked, Parented, Way, Obliging, Members, Known;
      var ino, loopPass, parentCount := dir, false, 0;
      var loopDetect: set<nat> := {};
      ghost var way, k := [], MAX_DEPTH + 2;
      ghost var whole := Way(done, dir, k);
      NoMembers(start);
      while true
        invariant done == old(done) + Members(way) && examined == old(examined) + Known(way, start)
        invariant !loopPass ==> k + parentCount == MAX_DEPTH + 2 && k > 0
        invariant loopPass ==> k == 0
        invariant whole.0 == way + Way(done, ino, k).0 && whole.1 == Way(done, ino, k).1
        invariant Inv() && old(done) <= done && (allFixed ==> old(allFixed))
        invariant ino == dir || dir in done
        invariant loopPass ==> ino == dir && dir in done
        invariant Closed(start) && dir in start ==> ino in start
        decreases start.Keys - done, ino !in done
      {
        WayEnds(done, ino, k);
        if ino in done {
          assert way + [] == way;
          return true;
        }
        SameKeys();
        OneMember(way, ino, start);
        if ino !in parent {
          MarkUnknown(ino);
          return false;
        }
        var p := parent[ino];
        var seen := loopPass && p in loopDetect;
        ghost var before, at := done, ino;
        LookUp(ino, seen);
        if p == 0 || seen {
          return true;
        }
        WayStep(before, at, k);
        assert way + ([at] + Way(done, p, k - 1).0) == way + [at] + Way(done, p, k - 1).0;
        way, k := way + [at], k - 1;
        ino := p;
        if loopPass {
          loopDetect := loopDetect + {ino};
        } else {
          if parentCount > MAX_DEPTH {
            WayEnds(done, ino, k);
            loopPass, loopDetect, ino := true, {}, dir;
            WayEnds(done, ino, k);
          }
          parentCount := parentCount + 1;
        }
      }
    }

    lemma SameKeys()
      requires Inv()
      ensures parent.Keys == dotdot.Keys == start.Keys
    {
    }

    /** `check_directory`: afterwards ".." is compared with the parent, once for each directory. */
    method CheckDirectory(dir: nat)
      requires Inv() && dir !in settled
      modifies this
      ensures Inv() && dir in done && old(done) <= done && (allFixed ==> old(allFixed))
      ensures settled == old(settled) + if dir in start && Way(old(done), dir, MAX_DEPTH + 2).1 then {dir} else {}
      ensures Closed(start) && dir in start ==> dir in settled
    {
      hide Looked, Way, Obliging, Members, Known;
      var known := Climb(dir);
      if !known || dir !in dotdot || dir !in parent {
        return;
      }
      Settle(dir);
    }

    method Settle(dir: nat)
      requires Inv() && dir in done && dir !in settled && dir in dotdot && dir in parent
      modifies this`parent, this`dotdot, this`allFixed, this`settled
      ensures Inv() && settled == old(settled) + {dir} && (allFixed ==> old(allFixed))
    {
      hide Looked;
      ParentIsHome(dir);
      if dotdot[dir] != parent[dir] {
        if dir in corrected {
          FixDotDot(dir, parent[dir]);
        } else {
          allFixed := false;
        }
      }
      settled := settled + {dir};
    }

    lemma ParentIsHome(dir: nat)
      requires Inv() && dir in done && dir !in settled && dir in start
      ensures allFixed ==> parent[dir] == Home(dir)
    {
    }

    /**
     The main loop of pass 3 over the known directories. Every directory's parent is looked up exactly once and the
     offers are exactly the directories without one. If all is answered with yes, ".." leads each directory to its
     parent or to lost+found, and from there to the root exactly when pass 2 left it outside any circle.
     */
    method Run(dirs: seq<nat>, dirMap: set<nat>)
      requires Inv() && NoDup(dirs) && settled == {} && done == {EXT2_ROOT_INO} && allFixed
      requires forall d :: d in dirs <==> d in start
      modifies this
      ensures Inv()
      ensures forall d :: d in start && d in dirMap && d != EXT2_ROOT_INO ==> d in examined
      ensures forall d :: d in start && d in dirMap && d != EXT2_ROOT_INO ==> (d in offers <==> start[d] == 0)
      ensures Obliging() ==> allFixed
      ensures Closed(start) && (forall d :: d in start ==> d in dirMap) && allFixed ==>
                dotdot == Reconnected(start, lostFound)
      ensures Closed(start) && (forall d :: d in start ==> d in dirMap) && allFixed &&
              lostFound in start && start[lostFound] == EXT2_ROOT_INO ==>
                forall d :: d in start ==> (Reaches(dotdot, d) <==> !Circles(start, d))
    {
      hide Looked, Parented, Reaches, Circles;
      var i := 0;
      while i < |dirs|
        invariant 0 <= i <= |dirs| && Inv()
        invariant forall d :: d in settled ==> d in dirs[..i]
        invariant forall k :: 0 <= k < i && dirs[k] in dirMap ==> dirs[k] in done
        invariant Closed(start) ==> forall k :: 0 <= k < i && dirs[k] in dirMap ==> dirs[k] in settled
      {
        assert dirs[i] !in dirs[..i];
        assert dirs[..i + 1] == dirs[..i] + [dirs[i]];
        if dirs[i] in dirMap {
          CheckDirectory(dirs[i]);
        }
        i := i + 1;
      }
      forall d | d in start && d in dirMap
        ensures d in done && (Closed(start) ==> d in settled)
      {
        var k :| 0 <= k < |dirs| && dirs[k] == d;
      }
      AllHome(dirMap);
      if Closed(start) && lostFound in start && start[lostFound] == EXT2_ROOT_INO {
        forall d | d in start
          ensures Reaches(Reconnected(start, lostFound), d) <==> !Circles(start, d)
        {
          ConnectedExactly(start, lostFound, d);
        }
      }
    }

    lemma AllHome(dirMap: set<nat>)
      requires Inv() && forall d :: d in start && d in dirMap ==> d in done && (Closed(start) ==> d in settled)
      ensures forall d :: d in start && d in dirMap && d != EXT2_ROOT_INO ==>
                d in examined && (d in offers <==> start[d] == 0)
      ensures Closed(start) && (forall d :: d in start ==> d in dirMap) && allFixed ==>
                dotdot == Reconnected(start, lostFound)
    {
    }
  }
}
