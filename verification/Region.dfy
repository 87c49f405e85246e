/** Allocation of intervals inside a region, kept as a sorted linked list (e2fsck-patch/e2fsck/region.c). */
module Region {
  import opened Bytes
  import opened Distinct

  /** The half-open interval from `start` to `end`. */
  datatype Span = Span(start: nat, end: nat)

  function Range(start: nat, end: nat): (r: set<int>)
    ensures forall x :: x in r <==> start <= x < end
    decreases end - start
  {
    if start >= end then {} else {start} + Range(start + 1, end)
  }

  /** Everything covered by the intervals. */
  function Cover(spans: seq<Span>): set<int> {
    if spans == [] then {} else Range(spans[0].start, spans[0].end) + Cover(spans[1..])
  }

  /** Non-empty intervals in ascending order with gaps between them. */
  ghost predicate Canonical(spans: seq<Span>) {
    && (forall i :: 0 <= i < |spans| ==> spans[i].start < spans[i].end)
    && (forall i, j :: 0 <= i < j < |spans| ==> spans[i].end < spans[j].start)
  }

  ghost predicate Within(spans: seq<Span>, min: nat, max: nat) {
    forall i :: 0 <= i < |spans| ==> min <= spans[i].start && spans[i].end <= max
  }

  lemma {:induction false} CoverConcat(a: seq<Span>, b: seq<Span>)
    ensures Cover(a + b) == Cover(a) + Cover(b)
  {
    if a == [] {
      assert a + b == b;
    } else {
      assert (a + b)[1..] == a[1..] + b;
      CoverConcat(a[1..], b);
    }
  }

  /** The cover of a list with `mid` in the middle. */
  lemma CoverAround(a: seq<Span>, mid: seq<Span>, b: seq<Span>)
    ensures Cover(a + mid + b) == Cover(a) + Cover(mid) + Cover(b)
  {
    CoverConcat(a + mid, b);
    CoverConcat(a, mid);
  }

  lemma {:induction false} CoverIn(spans: seq<Span>, x: int)
    ensures x in Cover(spans) <==> exists i :: 0 <= i < |spans| && spans[i].start <= x < spans[i].end
  {
    if spans == [] {
    } else {
      CoverIn(spans[1..], x);
      if exists i :: 0 <= i < |spans| && spans[i].start <= x < spans[i].end {
        var i :| 0 <= i < |spans| && spans[i].start <= x < spans[i].end;
        if i > 0 {
          assert spans[1..][i - 1] == spans[i];
        }
      }
    }
  }

  /** The list depends only on what is covered: the order of allocations leaves no trace. */
  lemma {:induction false} CanonicalIsUnique(a: seq<Span>, b: seq<Span>)
    requires Canonical(a) && Canonical(b) && Cover(a) == Cover(b)
    ensures a == b
  {
    if a != [] && b != [] {
      FirstIsLeast(a, b);
      FirstIsLeast(b, a);
      TailCover(a);
      TailCover(b);
      CanonicalIsUnique(a[1..], b[1..]);
      assert a == [a[0]] + a[1..] && b == [b[0]] + b[1..];
    } else {
      EmptyCover(a);
      EmptyCover(b);
    }
  }

  lemma {:induction false} EmptyCover(a: seq<Span>)
    requires Canonical(a)
    ensures Cover(a) == {} <==> a == []
  {
    if a != [] {
      assert a[0].start in Range(a[0].start, a[0].end);
    }
  }

  lemma {:induction false} FirstIsLeast(a: seq<Span>, b: seq<Span>)
    requires Canonical(a) && Canonical(b) && a != [] && b != [] && Cover(a) == Cover(b)
    ensures b[0].start <= a[0].start && (a[0].start == b[0].start ==> a[0].end <= b[0].end)
  {
    var gap := b[0].end;
    CoverIn(b, a[0].start);
    CoverIn(b, gap);
    assert a[0].start in Cover(a);
    assert gap !in Cover(b);
    assert !(a[0].start <= gap < a[0].end);
  }

  lemma {:induction false} TailCover(a: seq<Span>)
    requires Canonical(a) && a != []
    ensures Canonical(a[1..]) && Cover(a[1..]) == Cover(a) - Range(a[0].start, a[0].end)
  {
    forall x | x in Cover(a[1..])
      ensures x >= a[0].end
    {
      CoverIn(a[1..], x);
    }
  }

  /* ----- the four ways an allocation changes the list ----- */

  lemma Meets(spans: seq<Span>, k: nat, start: nat, end: nat)
    requires k < |spans| && start < end && start < spans[k].end && spans[k].start < end && spans[k].start < spans[k].end
    ensures !(Range(start, end) !! Cover(spans))
  {
    var x := if start <= spans[k].start then spans[k].start else start;
    CoverIn(spans, x);
    assert x in Range(start, end);
  }

  /** A range between the intervals before `k` and the one at `k` meets none. */
  lemma Misses(spans: seq<Span>, k: nat, start: nat, end: nat)
    requires Canonical(spans) && k <= |spans|
    requires k > 0 ==> spans[k - 1].end <= start
    requires k < |spans| ==> end <= spans[k].start
    ensures Range(start, end) !! Cover(spans)
  {
    forall x | x in Range(start, end)
      ensures x !in Cover(spans)
    {
      CoverIn(spans, x);
      forall i | 0 <= i < |spans|
        ensures !(spans[i].start <= x < spans[i].end)
      {
        if k < i {
          assert spans[k].end < spans[i].start;
        } else if i < k - 1 {
          assert spans[i].end < spans[k - 1].start;
        }
      }
    }
  }

  lemma {:induction false} CoverFew(s: Span, t: Span)
    ensures Cover([]) == {} && Cover([s]) == Range(s.start, s.end)
    ensures Cover([s, t]) == Range(s.start, s.end) + Range(t.start, t.end)
  {
    assert [s][1..] == [] && [s, t][1..] == [t] && [t][1..] == [];
    assert Cover([t]) == Range(t.start, t.end);
  }

  /** Replacing the intervals `lo..hi` by the single interval `s` that joins them up with `start..end`. */
  lemma Replace(spans: seq<Span>, lo: nat, hi: nat, s: Span, start: nat, end: nat)
    requires lo <= hi <= |spans| && Cover(spans[lo..hi]) + Range(start, end) == Range(s.start, s.end)
    ensures Cover(spans[..lo] + [s] + spans[hi..]) == Cover(spans) + Range(start, end)
  {
    hide Cover, Range;
    var a, m, b := spans[..lo], spans[lo..hi], spans[hi..];
    assert spans == a + m + b;
    CoverAround(a, m, b);
    CoverAround(a, [s], b);
    CoverFew(s, s);
    AddedInside(Cover(a), Cover(m), Cover(b), Range(start, end));
  }

  lemma AddedInside<T>(a: set<T>, m: set<T>, b: set<T>, r: set<T>)
    ensures a + (m + r) + b == a + m + b + r
  {
  }

  lemma CanonicalConcat(a: seq<Span>, b: seq<Span>)
    requires Canonical(a) && Canonical(b)
    requires a != [] && b != [] ==> a[|a| - 1].end < b[0].start
    ensures Canonical(a + b)
  {
    if a != [] && b != [] {
      var last, first := a[|a| - 1], b[0];
      assert forall i :: 0 <= i < |a| ==> a[i].end <= last.end;
      assert forall j :: 0 <= j < |b| ==> first.start <= b[j].start;
    }
  }

  lemma KeepsOrder(spans: seq<Span>, lo: nat, hi: nat, s: Span)
    requires Canonical(spans) && lo <= hi <= |spans| && s.start < s.end
    requires lo > 0 ==> spans[lo - 1].end < s.start
    requires hi < |spans| ==> s.end < spans[hi].start
    ensures Canonical(spans[..lo] + [s] + spans[hi..])
  {
    var a, b := spans[..lo], spans[hi..];
    assert Canonical(a) && Canonical(b) && Canonical([s]);
    hide Canonical;
    CanonicalConcat(a, [s]);
    CanonicalConcat(a + [s], b);
  }

  /** Up to two neighbours and the range that touches or joins them make one interval. */
  ghost predicate Fits(spans: seq<Span>, lo: nat, hi: nat, s: Span, start: nat, end: nat) {
    && lo <= hi <= |spans| && start < end
    && (|| (hi == lo && s == Span(start, end))
        || (hi == lo + 1 && end == spans[lo].start && s == Span(start, spans[lo].end))
        || (hi == lo + 1 && start == spans[lo].end && s == Span(spans[lo].start, end))
        || (hi == lo + 2 && start == spans[lo].end && end == spans[lo + 1].start &&
            s == Span(spans[lo].start, spans[lo + 1].end)))
    && (lo > 0 ==> spans[lo - 1].end < s.start)
    && (hi < |spans| ==> s.end < spans[hi].start)
  }

  lemma FitsCover(spans: seq<Span>, lo: nat, hi: nat, s: Span, start: nat, end: nat)
    requires Canonical(spans) && Fits(spans, lo, hi, s, start, end)
    ensures s.start < s.end && Cover(spans[lo..hi]) + Range(start, end) == Range(s.start, s.end)
  {
    hide Cover;
    var mid := spans[lo..hi];
    if hi == lo {
      CoverFew(s, s);
      assert mid == [];
    } else if hi == lo + 1 {
      CoverFew(spans[lo], s);
      assert mid == [spans[lo]] && spans[lo].start < spans[lo].end;
    } else {
      CoverFew(spans[lo], spans[lo + 1]);
      assert mid == [spans[lo], spans[lo + 1]];
      assert spans[lo].start < spans[lo].end < spans[lo + 1].start < spans[lo + 1].end;
    }
  }

  lemma Joined(spans: seq<Span>, lo: nat, hi: nat, s: Span, start: nat, end: nat)
    requires Canonical(spans) && Fits(spans, lo, hi, s, start, end)
    ensures var now := spans[..lo] + [s] + spans[hi..];
      && Canonical(now) && (hi == lo + 1 ==> now == spans[lo := s])
      && Cover(now) == Cover(spans) + Range(start, end)
  {
    hide Canonical, Cover, Range;
    FitsCover(spans, lo, hi, s, start, end);
    KeepsOrder(spans, lo, hi, s);
    Replace(spans, lo, hi, s, start, end);
  }

  lemma StaysWithin(spans: seq<Span>, lo: nat, hi: nat, s: Span, min: nat, max: nat)
    requires Within(spans, min, max) && lo <= hi <= |spans|
    requires min <= s.start || (lo < hi && s.start == spans[lo].start)
    requires s.end <= max || (lo < hi && s.end == spans[hi - 1].end)
    ensures Within(spans[..lo] + [s] + spans[hi..], min, max)
  {
  }

  lemma Neighbours(spans: seq<Span>, k: nat)
    requires Canonical(spans) && k < |spans|
    ensures spans[k].start < spans[k].end
    ensures k > 0 ==> spans[k - 1].end < spans[k].start
    ensures k + 1 < |spans| ==> spans[k].end < spans[k + 1].start
  {
  }

  /** `start + n` in 64 bits: `n` is an `int`, and `start` an unsigned address. */
  function RangeEnd(start: u64, n: int): u64 { (start + n) % 0x1_0000_0000_0000_0000 }

  /** What adding `end` to interval `k` makes of the list: its gap to the next one is filled, or it grows. */
  function Extended(spans: seq<Span>, k: nat, end: nat): seq<Span>
    requires k < |spans|
  {
    if k + 1 < |spans| && end == spans[k + 1].start
    then spans[..k] + [Span(spans[k].start, spans[k + 1].end)] + spans[k + 2..]
    else spans[k := Span(spans[k].start, end)]
  }

  /** What a change of the list comes to: exactly the range is added, unless the range runs backwards. */
  ghost predicate Adds(was: seq<Span>, now: seq<Span>, start: nat, end: nat, min: nat, max: nat) {
    if start < end
    then
      && Canonical(now) && Within(now, min, max)
      && Range(start, end) !! Cover(was) && Cover(now) == Cover(was) + Range(start, end)
    else !Canonical(now)
  }

  /** A backwards interval in the list. */
  lemma Backwards(now: seq<Span>, k: nat)
    requires k < |now| && now[k].end <= now[k].start
    ensures !Canonical(now)
  {
  }

  lemma JoinedDown(spans: seq<Span>, k: nat, start: nat, end: nat, min: nat, max: nat)
    requires Canonical(spans) && Within(spans, min, max) && k < |spans| && end == spans[k].start && min <= start
    requires start != end
    requires k > 0 ==> spans[k - 1].end < start
    requires !(spans[k].start <= start < spans[k].end)
    ensures Adds(spans, spans[k := Span(start, spans[k].end)], start, end, min, max)
  {
    hide Canonical, Cover, Range, Within;
    var s := Span(start, spans[k].end);
    Neighbours(spans, k);
    if start < end {
      Misses(spans, k, start, end);
      Joined(spans, k, k + 1, s, start, end);
      StaysWithin(spans, k, k + 1, s, min, max);
    } else {
      Backwards(spans[k := s], k);
    }
  }

  lemma JoinedUp(spans: seq<Span>, k: nat, start: nat, end: nat, min: nat, max: nat)
    requires Canonical(spans) && Within(spans, min, max) && k < |spans| && start == spans[k].end && end <= max
    requires start != end
    requires !(spans[k].start < end <= spans[k].end) && end != spans[k].start
    ensures var meets := k + 1 < |spans| && end > spans[k + 1].start;
      && (meets ==> start < end && !(Range(start, end) !! Cover(spans)))
      && (!meets ==> Adds(spans, Extended(spans, k, end), start, end, min, max))
  {
    hide Canonical, Cover, Range, Within;
    Neighbours(spans, k);
    if k + 1 < |spans| {
      Neighbours(spans, k + 1);
    }
    if k + 1 < |spans| && end > spans[k + 1].start {
      Meets(spans, k + 1, start, end);
    } else if end < start {
      Backwards(Extended(spans, k, end), k);
    } else {
      Misses(spans, k + 1, start, end);
      var merges := k + 1 < |spans| && end == spans[k + 1].start;
      var hi := if merges then k + 2 else k + 1;
      var s := Span(spans[k].start, if merges then spans[k + 1].end else end);
      Joined(spans, k, hi, s, start, end);
      StaysWithin(spans, k, hi, s, min, max);
    }
  }

  lemma JoinedNew(spans: seq<Span>, k: nat, start: nat, end: nat, min: nat, max: nat)
    requires Canonical(spans) && Within(spans, min, max) && k <= |spans| && min <= start && end <= max && start != end
    requires k > 0 ==> spans[k - 1].end < start
    requires k < |spans| ==> start < spans[k].start && !(spans[k].start < end) && end != spans[k].start
    ensures Adds(spans, spans[..k] + [Span(start, end)] + spans[k..], start, end, min, max)
  {
    hide Canonical, Cover, Range, Within;
    var s := Span(start, end);
    if start < end {
      Misses(spans, k, start, end);
      Joined(spans, k, k, s, start, end);
      StaysWithin(spans, k, k, s, min, max);
    } else {
      Backwards(spans[..k] + [s] + spans[k..], k);
    }
  }

  /* ----- the search as a function of the list, in order or not ----- */

  datatype Outcome = Refused | Placed(spans: seq<Span>)

  /** The three tests for a conflict with one interval. */
  predicate Conflicts(s: Span, start: nat, end: nat) {
    || (start >= s.start && start < s.end)
    || (end > s.start && end <= s.end)
    || (start <= s.start && end >= s.end)
  }

  /** The search for a place, from interval `k` on. */
  function PlaceAt(spans: seq<Span>, k: nat, start: nat, end: nat): Outcome
    requires k <= |spans|
    decreases |spans| - k
  {
    if k == |spans| then Placed(spans[..k] + [Span(start, end)] + spans[k..])
    else
      var s := spans[k];
      if Conflicts(s, start, end) then Refused
      else if end == s.start then Placed(spans[k := Span(start, s.end)])
      else if start == s.end then
        if k + 1 < |spans| && end > spans[k + 1].start then Refused else Placed(Extended(spans, k, end))
      else if start < s.start then Placed(spans[..k] + [Span(start, end)] + spans[k..])
      else PlaceAt(spans, k + 1, start, end)
  }

  /** A range that runs forwards is refused exactly on overlap, and otherwise added. */
  lemma {:induction false} ForwardExact(spans: seq<Span>, k: nat, start: nat, end: nat, min: nat, max: nat)
    requires Canonical(spans) && Within(spans, min, max) && k <= |spans| && min <= start < end <= max
    requires k > 0 ==> spans[k - 1].end < start
    ensures var o := PlaceAt(spans, k, start, end);
      && (o.Refused? <==> !(Range(start, end) !! Cover(spans)))
      && (o.Placed? ==> Adds(spans, o.spans, start, end, min, max))
    decreases |spans| - k
  {
    hide Cover, Range, Canonical, Within, Extended;
    if k == |spans| {
      JoinedNew(spans, k, start, end, min, max);
    } else {
      Neighbours(spans, k);
      if Conflicts(spans[k], start, end) {
        Meets(spans, k, start, end);
      } else if end == spans[k].start {
        JoinedDown(spans, k, start, end, min, max);
      } else if start == spans[k].end {
        JoinedUp(spans, k, start, end, min, max);
      } else if start < spans[k].start {
        JoinedNew(spans, k, start, end, min, max);
      } else {
        ForwardExact(spans, k + 1, start, end, min, max);
      }
    }
  }

  /**
   A range that runs backwards meets the list: its end is inside an interval or just behind it, or its start is
   inside one and no interval before that starts at its end.
   */
  predicate Collides(spans: seq<Span>, start: nat, end: nat) {
    || (exists k :: 0 <= k < |spans| && spans[k].start < end <= spans[k].end)
    || (exists k :: 0 <= k < |spans| && spans[k].start <= start < spans[k].end &&
                    forall i :: 0 <= i < k ==> spans[i].start != end)
  }

  /** A range that runs backwards is refused exactly then; otherwise the list is in order no longer. */
  lemma {:induction false} BackwardExact(spans: seq<Span>, k: nat, start: nat, end: nat, min: nat, max: nat)
    requires Canonical(spans) && Within(spans, min, max) && k <= |spans| && min <= start && end <= max && end < start
    requires k > 0 ==> spans[k - 1].end < start
    requires forall i :: 0 <= i < k ==> !(spans[i].start <= end <= spans[i].end)
    ensures var o := PlaceAt(spans, k, start, end);
      && (o.Refused? <==> Collides(spans, start, end))
      && (o.Placed? ==> !Canonical(o.spans))
    decreases |spans| - k
  {
    hide Cover, Range, Within, Extended;
    if k == |spans| {
      JoinedNew(spans, k, start, end, min, max);
    } else {
      Neighbours(spans, k);
      if end == spans[k].start && start >= spans[k].end {
        JoinedDown(spans, k, start, end, min, max);
        NoLaterStart(spans, k, start, end);
      } else if start == spans[k].end && !Conflicts(spans[k], start, end) {
        JoinedUp(spans, k, start, end, min, max);
      } else if start < spans[k].start && !Conflicts(spans[k], start, end) {
        JoinedNew(spans, k, start, end, min, max);
      } else if !Conflicts(spans[k], start, end) {
        BackwardExact(spans, k + 1, start, end, min, max);
      }
    }
  }

  /** If interval `k` starts at the end of the range and lies before its start, nothing collides. */
  lemma NoLaterStart(spans: seq<Span>, k: nat, start: nat, end: nat)
    requires Canonical(spans) && k < |spans| && end == spans[k].start && start >= spans[k].end
    requires forall i :: 0 <= i < k ==> !(spans[i].start <= end <= spans[i].end)
    ensures !Collides(spans, start, end)
  {
  }

  /**
   The failure at an input. An attribute value at offset 200 of size 2^32 - 100 passes the 32-bit test of its end
   against the size of the block; its length is then -100, and the range from 200 back to 100 is added behind the
   header.
   */
  lemma BackwardsAdded(header: nat)
    requires 0 < header < 100
    ensures (200 + (WORD - 100)) % WORD <= 1024 && RangeEnd(200, -100) == 100
    ensures Canonical([Span(0, header)])
    ensures PlaceAt([Span(0, header)], 0, 200, 100) == Placed([Span(0, header), Span(200, 100)])
    ensures !Canonical([Span(0, header), Span(200, 100)])
  {
    var list := [Span(0, header)];
    assert PlaceAt(list, 1, 200, 100) == Placed(list + [Span(200, 100)]);
    Backwards([Span(0, header), Span(200, 100)], 1);
  }

  /* ----- the linked list ----- */

  lemma RemovedAt<T>(ns: seq<T>, k: nat)
    requires k < |ns|
    ensures var now := ns[..k] + ns[k + 1..];
      && (forall i :: 0 <= i < k ==> now[i] == ns[i]) && (forall i :: k <= i < |now| ==> now[i] == ns[i + 1])
  {
  }

  lemma NoDupApart<T>(ns: seq<T>, k: nat)
    requires NoDup(ns) && k < |ns|
    ensures forall i :: 0 <= i < |ns| && i != k ==> ns[i] != ns[k]
  {
  }

  lemma NoDupRemove<T>(ns: seq<T>, k: nat)
    requires NoDup(ns) && k < |ns|
    ensures NoDup(ns[..k] + ns[k + 1..])
  {
  }

  lemma NoDupInsert<T>(ns: seq<T>, k: nat, x: T)
    requires NoDup(ns) && k <= |ns| && x !in ns
    ensures NoDup(ns[..k] + [x] + ns[k..])
  {
  }

  lemma InsertedAt<T>(ns: seq<T>, k: nat, x: T)
    requires k <= |ns|
    ensures var now := ns[..k] + [x] + ns[k..];
      && now[k] == x && (forall i :: 0 <= i < k ==> now[i] == ns[i])
      && (forall i :: k < i <= |ns| ==> now[i] == ns[i - 1])
  {
  }

  class RegionEl {
    var start: nat
    var end: nat
    var next: RegionEl?

    constructor (start: nat, end: nat, next: RegionEl?)
      ensures this.start == start && this.end == end && this.next == next
    {
      this.start, this.end, this.next := start, end, next;
    }
  }

  class RegionList {
    const min: nat
    const max: nat
    var head: RegionEl?

    /** The elements in list order, and the intervals they hold. */
    ghost var nodes: seq<RegionEl>
    ghost var spans: seq<Span>

    /** The `k`-th element, or null past the end. */
    ghost function At(k: int): RegionEl?
      reads this
    {
      if 0 <= k < |nodes| then nodes[k] else null
    }

    ghost predicate Linked()
      reads this, nodes
    {
      && head == At(0) && NoDup(nodes) && |spans| == |nodes|
      && (forall i {:trigger nodes[i].next} :: 0 <= i < |nodes| ==> nodes[i].next == At(i + 1))
      && (forall i :: 0 <= i < |nodes| ==> spans[i] == Span(nodes[i].start, nodes[i].end))
    }

    ghost predicate Valid()
      reads this, nodes
    {
      && Linked() && Canonical(spans)
      && Within(spans, min, max)
    }

    /** `region_create`. */
    constructor (min: nat, max: nat)
      ensures Valid() && this.min == min && this.max == max && spans == []
    {
      this.min, this.max, head, nodes, spans := min, max, null, [], [];
    }

    /**
     `region_allocate`: refuses a range outside the region (-1) or one that is empty or meets something
     allocated (1), and otherwise adds exactly that range. A range that runs backwards, because `n` is negative or
     `start + n` wraps, is refused only if it collides; otherwise it is added, and the list is in order no longer.
     */
    method Allocate(start: u64, n: int) returns (ret: int)
      requires Linked() && -0x8000_0000 <= n < 0x8000_0000
      modifies this, nodes
      ensures Linked() && forall x :: x in nodes ==> x in old(nodes) || fresh(x)
      ensures ret == -1 <==> start < min || RangeEnd(start, n) > max
      ensures ret == 0 ==> PlaceAt(old(spans), 0, start, RangeEnd(start, n)) == Placed(spans)
      ensures ret != 0 ==> spans == old(spans) && (ret == 1 || ret == -1)
      ensures ret == 1 && n != 0 ==> PlaceAt(old(spans), 0, start, RangeEnd(start, n)) == Refused
      ensures n == 0 ==> ret != 0
      ensures var end := RangeEnd(start, n);
        old(Valid()) && min <= start && end <= max && start < end ==>
          && Valid() && (ret == 1 <==> !(Range(start, end) !! Cover(old(spans))))
          && (ret == 0 ==> Cover(spans) == Cover(old(spans)) + Range(start, end))
      ensures var end := RangeEnd(start, n);
        old(Valid()) && min <= start && end <= max && end < start ==> (ret == 1 <==> Collides(old(spans), start, end))
      ensures var end := RangeEnd(start, n);
        var goesWrong := min <= start && end <= max && end < start && !Collides(old(spans), start, end);
        old(Valid()) ==> (Valid() <==> !goesWrong)
    {
      var end := RangeEnd(start, n);
      if start < min || end > max {
        return -1;
      }
      if n == 0 {
        return 1;
      }
      hide Cover, Range, Canonical, Linked, Within, Collides, PlaceAt;
      if old(Valid()) {
        if start < end {
          ForwardExact(spans, 0, start, end, min, max);
        } else {
          BackwardExact(spans, 0, start, end, min, max);
        }
      }
      ret := Place(start, end);
    }

    /** The search along the list for a range inside the region. */
    method Place(start: nat, end: nat) returns (ret: int)
      requires Linked()
      modifies this, nodes
      ensures Linked() && forall x :: x in nodes ==> x in old(nodes) || fresh(x)
      ensures ret == 0 ==> PlaceAt(old(spans), 0, start, end) == Placed(spans)
      ensures ret != 0 ==> ret == 1 && spans == old(spans) && PlaceAt(spans, 0, start, end) == Refused
    {
      hide Linked, NoDup, Extended;
      ghost var k := 0;
      var r, prev: RegionEl? := head, null;
      Starts();
      while r != null
        invariant 0 <= k <= |nodes| == |spans| && nodes == old(nodes) && spans == old(spans) && Linked()
        invariant r == At(k) && prev == At(k - 1)
        invariant PlaceAt(spans, k, start, end) == PlaceAt(spans, 0, start, end)
        decreases |nodes| - k
      {
        Holds(k);
        if (start >= r.start && start < r.end) || (end > r.start && end <= r.end) ||
           (start <= r.start && end >= r.end) {
          return 1;
        }
        if end == r.start {
          GrowDown(r, k, start);
          return 0;
        }
        if start == r.end {
          ret := Extend(r, k, end);
          return;
        }
        if start < r.start {
          break;
        }
        prev, r := r, r.next;
        k := k + 1;
      }
      if r != null {
        Holds(k);
      }
      Insert(prev, r, k, start, end);
      return 0;
    }

    lemma Starts()
      requires Linked()
      ensures head == At(0) && |spans| == |nodes|
    {
    }

    lemma Holds(k: nat)
      requires Linked() && k < |nodes|
      ensures |spans| == |nodes| && spans[k] == Span(nodes[k].start, nodes[k].end) && nodes[k].next == At(k + 1)
    {
    }

    /** A range that ends where `r` starts is joined to `r`. */
    method GrowDown(r: RegionEl, ghost k: nat, start: nat)
      requires Linked() && k < |nodes| && r == nodes[k]
      modifies this`spans, r`start
      ensures Linked() && k < |old(spans)| && spans == old(spans)[k := Span(start, old(spans[k].end))]
    {
      hide NoDup;
      NoDupApart(nodes, k);
      spans := spans[k := Span(start, spans[k].end)];
      r.start := start;
    }

    /** A range that starts where `r` ends. */
    method Extend(r: RegionEl, ghost k: nat, end: nat) returns (ret: int)
      requires Linked() && k < |nodes| && r == nodes[k]
      modifies this`nodes, this`spans, r`end, r`next
      ensures Linked() && forall x :: x in nodes ==> x in old(nodes)
      ensures k < |old(spans)| && ret == if k + 1 < |old(spans)| && end > old(spans[k + 1].start) then 1 else 0
      ensures ret == 1 ==> spans == old(spans)
      ensures ret == 0 ==> spans == Extended(old(spans), k, end)
    {
      hide Linked;
      var next := r.next;
      Holds(k);
      if next != null {
        Holds(k + 1);
        if end > next.start {
          return 1;
        }
        if end == next.start {
          Merge(r, next, k);
          return 0;
        }
      }
      GrowUp(r, k, end);
      return 0;
    }

    method GrowUp(r: RegionEl, ghost k: nat, end: nat)
      requires Linked() && k < |nodes| && r == nodes[k]
      modifies this`spans, r`end
      ensures Linked() && k < |old(spans)| && spans == old(spans)[k := Span(old(spans[k].start), end)]
    {
      hide NoDup;
      NoDupApart(nodes, k);
      spans := spans[k := Span(spans[k].start, end)];
      r.end := end;
    }

    /** The gap between `r` and its successor is filled: `r` takes over both, and the successor is freed. */
    method Merge(r: RegionEl, next: RegionEl, ghost k: nat)
      requires Linked() && k + 1 < |nodes| && r == nodes[k] && next == nodes[k + 1]
      modifies this`nodes, this`spans, r`end, r`next
      ensures Linked() && forall x :: x in nodes ==> x in old(nodes)
      ensures k + 1 < |old(spans)| &&
              spans == old(spans)[..k] + [Span(old(spans[k].start), old(spans[k + 1].end))] + old(spans)[k + 2..]
    {
      hide NoDup;
      ghost var ns, was := nodes, spans;
      ghost var s := Span(was[k].start, was[k + 1].end);
      NoDupApart(ns, k);
      NoDupRemove(ns, k + 1);
      RemovedAt(ns, k + 1);
      spans := was[..k] + [s] + was[k + 2..];
      nodes := ns[..k + 1] + ns[k + 2..];
      r.end := next.end;
      r.next := next.next;
      forall i | 0 <= i < |nodes|
        ensures spans[i] == Span(nodes[i].start, nodes[i].end)
      {
        if i > k {
          assert nodes[i] == ns[i + 1] && spans[i] == was[i + 1];
        }
      }
    }

    /** A new element between `prev` and `r`. */
    method Insert(prev: RegionEl?, r: RegionEl?, ghost k: nat, start: nat, end: nat)
      requires Linked() && k <= |nodes| && r == At(k) && prev == At(k - 1)
      modifies this, nodes
      ensures Linked() && forall x :: x in nodes ==> x in old(nodes) || fresh(x)
      ensures k <= |old(spans)| && spans == old(spans)[..k] + [Span(start, end)] + old(spans)[k..]
    {
      hide NoDup;
      ghost var ns, was, s := nodes, spans, Span(start, end);
      if k > 0 {
        NoDupApart(ns, k - 1);
      }
      var el := new RegionEl(start, end, r);
      assert el !in ns;
      NoDupInsert(ns, k, el);
      InsertedAt(ns, k, el);
      InsertedAt(was, k, s);
      nodes, spans := ns[..k] + [el] + ns[k..], was[..k] + [s] + was[k..];
      if prev != null {
        prev.next := el;
      } else {
        head := el;
      }
    }
  }
}
