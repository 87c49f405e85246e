/** Writing a transaction into the journal and finding the end of the log (e2fsck-patch/debugfs/do_journal.c). */
module Journal {
  import opened Arithmetic
  import opened Bytes
  import opened JournalTags

  const JFS_MAGIC_NUMBER := 0xc03b3998
  const JFS_DESCRIPTOR_BLOCK := 1
  const JFS_COMMIT_BLOCK := 2
  const JFS_REVOKE_BLOCK := 5

  /** A journal block: the three words every header has, and the bytes behind them. */
  datatype Block = Block(magic: nat, blocktype: nat, sequence: nat, body: seq<byte>)

  type Log = map<nat, Block>

  ghost predicate Fits(f: Format, log: Log) {
    forall p :: p in log ==> |log[p].body| == f.blocksize - HEADER
  }

  /* ----- the scanner ----- */

  /** `wrap`. */
  function Wrap(first: nat, last: nat, p: nat): nat
    requires first < last
  {
    if p >= last then p - (last - first) else p
  }

  datatype Scan = Scan(next: nat, id: nat, head: nat)

  datatype Outcome = More(scan: Scan) | Finished(scan: Scan) | Failed

  /** One turn of the loop in `journal_find_head`. */
  function Turn(f: Format, log: Log, first: nat, last: nat, s: Scan): Outcome
    requires f.Valid() && first < last && Fits(f, log)
  {
    if s.next !in log then Failed else
      var b, next := log[s.next], Wrap(first, last, s.next + 1);
      if b.magic != JFS_MAGIC_NUMBER || b.sequence != s.id then Finished(s)
      else if b.blocktype == JFS_DESCRIPTOR_BLOCK then
        More(s.(next := Wrap(first, last, next + CountFrom(f, b.body, 0))))
      else if b.blocktype == JFS_COMMIT_BLOCK then More(Scan(next, (s.id + 1) % 0x1_0000_0000, next))
      else if b.blocktype == JFS_REVOKE_BLOCK then More(s.(next := next))
      else Failed
  }

  function Turns(f: Format, log: Log, first: nat, last: nat, s: Scan, n: nat): Outcome
    requires f.Valid() && first < last && Fits(f, log)
  {
    if n == 0 then More(s) else
      match Turns(f, log, first, last, s, n - 1)
      case More(t) => Turn(f, log, first, last, t)
      case o => o
  }

  /* ----- what a transaction looks like ----- */

  /** A data block as it stands in the log, where it belongs, and whether its first word was disguised. */
  datatype Found = Found(target: Target, raw: Block) {
    /** What a replay of the journal writes there. */
    function Restored(): Block {
      if target.escape then raw.(magic := JFS_MAGIC_NUMBER) else raw
    }
  }

  /**
   After some descriptor and revoke blocks: the next block, the data blocks passed on the way with what the descriptors
   say about them, and the blocks revoked.
   */
  datatype Walk = Walk(next: nat, data: seq<Found>, revoked: seq<nat>) | Lost

  /** The blocks from `p` on, with their targets. */
  function Slice(log: Log, p: nat, ts: seq<Target>): (r: seq<Found>)
    requires forall i :: p <= i < p + |ts| ==> i in log
    ensures |r| == |ts| && forall i :: 0 <= i < |ts| ==> r[i] == Found(ts[i], log[p + i])
  {
    seq(|ts|, i requires 0 <= i < |ts| => Found(ts[i], log[p + i]))
  }

  ghost function WalkOne(f: Format, log: Log, tid: nat, p: nat): Walk
    requires f.Valid() && Fits(f, log)
  {
    if p !in log || log[p].magic != JFS_MAGIC_NUMBER || log[p].sequence != tid then Lost
    else if log[p].blocktype == JFS_REVOKE_BLOCK then Walk(p + 1, [], Revoked(f, log[p].body))
    else if log[p].blocktype == JFS_DESCRIPTOR_BLOCK then
      var ts := TargetsFrom(f, log[p].body, 0);
      if forall i :: p < i <= p + |ts| ==> i in log then Walk(p + 1 + |ts|, Slice(log, p + 1, ts), []) else Lost
    else Lost
  }

  ghost function WalkOn(f: Format, log: Log, tid: nat, p: nat, n: nat): Walk
    requires f.Valid() && Fits(f, log)
  {
    if n == 0 then Walk(p, [], []) else
      match WalkOn(f, log, tid, p, n - 1)
      case Lost => Lost
      case Walk(q, data, revoked) =>
        match WalkOne(f, log, tid, q)
        case Lost => Lost
        case Walk(r, more, again) => Walk(r, data + more, revoked + again)
  }

  /** Walking moves forward. */
  lemma {:induction false} WalkForward(f: Format, log: Log, tid: nat, p: nat, n: nat)
    requires f.Valid() && Fits(f, log) && WalkOn(f, log, tid, p, n).Walk?
    ensures p <= WalkOn(f, log, tid, p, n).next
    ensures n > 0 ==> WalkOn(f, log, tid, p, n - 1).Walk? &&
                      WalkOn(f, log, tid, p, n - 1).next < WalkOn(f, log, tid, p, n).next
  {
    if n == 0 {
    } else {
      WalkForward(f, log, tid, p, n - 1);
    }
  }

  lemma WalkStart(f: Format, log: Log, tid: nat, p: nat)
    requires f.Valid() && Fits(f, log)
    ensures WalkOn(f, log, tid, p, 0) == Walk(p, [], [])
  {
  }

  lemma WalkStep(f: Format, log: Log, tid: nat, p: nat, n: nat)
    requires f.Valid() && Fits(f, log) && n > 0
    ensures var w, v := WalkOn(f, log, tid, p, n), WalkOn(f, log, tid, p, n - 1);
      if v.Lost? then w == Lost else
        var one := WalkOne(f, log, tid, v.next);
        w == if one.Lost? then Lost else Walk(one.next, v.data + one.data, v.revoked + one.revoked)
  {
  }

  /** What the log holds from `lo` up to `hi` is still there. */
  ghost predicate Same(log: Log, now: Log, lo: nat, hi: nat) {
    forall i :: lo <= i < hi && i in log ==> i in now && now[i] == log[i]
  }

  lemma SameWithin(log: Log, now: Log, lo: nat, hi: nat, mid: nat)
    requires Same(log, now, lo, hi) && lo <= mid <= hi
    ensures Same(log, now, lo, mid) && Same(log, now, mid, hi)
  {
  }

  /** Writing behind the place a walk has reached does not change it. */
  lemma {:induction false} WalkFrame(f: Format, log: Log, now: Log, tid: nat, p: nat, n: nat)
    requires f.Valid() && Fits(f, log) && Fits(f, now) && WalkOn(f, log, tid, p, n).Walk?
    requires Same(log, now, p, WalkOn(f, log, tid, p, n).next)
    ensures WalkOn(f, now, tid, p, n) == WalkOn(f, log, tid, p, n)
  {
    hide WalkOn, WalkOne, Fits, Same;
    if n == 0 {
      WalkStart(f, log, tid, p);
      WalkStart(f, now, tid, p);
    } else {
      WalkStep(f, log, tid, p, n);
      WalkStep(f, now, tid, p, n);
      WalkForward(f, log, tid, p, n);
      WalkForward(f, log, tid, p, n - 1);
      var q := WalkOn(f, log, tid, p, n - 1).next;
      SameWithin(log, now, p, WalkOn(f, log, tid, p, n).next, q);
      WalkFrame(f, log, now, tid, p, n - 1);
      WalkOneFrame(f, log, now, tid, q);
    }
  }

  lemma WalkOneFrame(f: Format, log: Log, now: Log, tid: nat, q: nat)
    requires f.Valid() && Fits(f, log) && Fits(f, now) && WalkOne(f, log, tid, q).Walk?
    requires Same(log, now, q, WalkOne(f, log, tid, q).next)
    ensures WalkOne(f, now, tid, q) == WalkOne(f, log, tid, q)
  {
    hide TargetsFrom, Revoked;
    assert q in now && now[q] == log[q];
    if log[q].blocktype == JFS_DESCRIPTOR_BLOCK {
      var ts := TargetsFrom(f, log[q].body, 0);
      assert Slice(now, q + 1, ts) == Slice(log, q + 1, ts);
    }
  }

  /* ----- a log that goes round ----- */

  /** Position `p`, counted on without end, in a log of the blocks `first .. last`. */
  function Round(first: nat, last: nat, p: nat): nat
    requires first < last && first <= p
  {
    first + (p - first) % (last - first)
  }

  /** The log laid out straight from `start` on, once round. */
  ghost function Unrolled(log: Log, first: nat, last: nat, start: nat): Log
    requires first < last && first <= start
  {
    map p: nat | start <= p < start + (last - first) && Round(first, last, p) in log :: log[Round(first, last, p)]
  }

  lemma UnrolledAt(log: Log, first: nat, last: nat, start: nat, p: nat)
    requires first < last && first <= start
    ensures var u := Unrolled(log, first, last, start);
      p in u <==> start <= p < start + (last - first) && Round(first, last, p) in log
    ensures var u := Unrolled(log, first, last, start); p in u ==> u[p] == log[Round(first, last, p)]
  {
  }

  lemma UnrolledFits(f: Format, log: Log, first: nat, last: nat, start: nat)
    requires first < last && first <= start && Fits(f, log)
    ensures Fits(f, Unrolled(log, first, last, start))
  {
  }

  /** Wrapping once is going round, for steps no longer than the log. */
  lemma WrapIsRound(first: nat, last: nat, p: nat, k: nat)
    requires first < last && first <= p && k <= last - first
    ensures Wrap(first, last, Round(first, last, p) + k) == Round(first, last, p + k)
  {
    var size, a: int := last - first, p - first;
    var r := a % size;
    QuotientTimes(a, size);
    if r + k < size {
      ModUnique(a + k, size, a / size, r + k);
    } else {
      assert (a / size + 1) * size == a / size * size + size;
      ModUnique(a + k, size, a / size + 1, r + k - size);
    }
  }

  /** The scanner's turn on a block of the round log takes it where the walk over the straight one goes. */
  lemma WalkIsTurn(f: Format, log: Log, first: nat, last: nat, tid: nat, start: nat, q: nat, head: nat)
    requires f.Valid() && first < last && first <= start && Fits(f, log)
    requires var u := Unrolled(log, first, last, start); Fits(f, u) && WalkOne(f, u, tid, q).Walk?
    ensures first <= q < WalkOne(f, Unrolled(log, first, last, start), tid, q).next
    ensures Turn(f, log, first, last, Scan(Round(first, last, q), tid, head)) ==
            More(Scan(Round(first, last, WalkOne(f, Unrolled(log, first, last, start), tid, q).next), tid, head))
  {
    hide CountFrom, TargetsFrom, Revoked, Wrap, Round, Unrolled;
    var u := Unrolled(log, first, last, start);
    UnrolledAt(log, first, last, start, q);
    var b := u[q];
    WrapIsRound(first, last, q, 1);
    if b.blocktype == JFS_DESCRIPTOR_BLOCK {
      var n := |TargetsFrom(f, b.body, 0)|;
      if n > 0 {
        UnrolledAt(log, first, last, start, q + n);
      }
      WrapIsRound(first, last, q + 1, n);
    }
  }

  /** The scanner takes the same way, round the end of the log as often as it comes there. */
  lemma {:induction false} WalkIsScan(f: Format, log: Log, first: nat, last: nat, tid: nat, start: nat, head: nat,
                                      n: nat)
    requires f.Valid() && first <= start < last && Fits(f, log)
    requires var u := Unrolled(log, first, last, start); Fits(f, u) && WalkOn(f, u, tid, start, n).Walk?
    ensures var c := WalkOn(f, Unrolled(log, first, last, start), tid, start, n).next;
      start <= c &&
      Turns(f, log, first, last, Scan(start, tid, head), n) == More(Scan(Round(first, last, c), tid, head))
  {
    hide WalkOn, WalkOne, Turn, Fits, Round, Unrolled;
    var u := Unrolled(log, first, last, start);
    if n == 0 {
      WalkStart(f, u, tid, start);
      RoundInside(first, last, start);
    } else {
      WalkForward(f, u, tid, start, n);
      WalkStep(f, u, tid, start, n);
      WalkIsScan(f, log, first, last, tid, start, head, n - 1);
      WalkIsTurn(f, log, first, last, tid, start, WalkOn(f, u, tid, start, n - 1).next, head);
    }
  }

  lemma RoundInside(first: nat, last: nat, p: nat)
    requires first <= p < last
    ensures Round(first, last, p) == p
  {
  }

  lemma RoundIn(first: nat, last: nat, p: nat)
    requires first < last && first <= p
    ensures first <= Round(first, last, p) < last
  {
  }

  /* ----- the transactions of a log ----- */

  /** After `n` descriptor and revoke blocks from `start` on, the commit block of transaction `tid`. */
  ghost predicate Committed(f: Format, log: Log, first: nat, last: nat, tid: nat, start: nat, n: nat)
    requires f.Valid() && first < last && first <= start && Fits(f, log)
  {
    UnrolledFits(f, log, first, last, start);
    var u := Unrolled(log, first, last, start);
    var w := WalkOn(f, u, tid, start, n);
    && w.Walk? && w.next in u && u[w.next].magic == JFS_MAGIC_NUMBER
    && u[w.next].blocktype == JFS_COMMIT_BLOCK && u[w.next].sequence == tid
  }

  /** How many blocks that transaction takes, with its commit block. */
  ghost function Length(f: Format, log: Log, first: nat, last: nat, tid: nat, start: nat, n: nat): nat
    requires f.Valid() && first < last && first <= start && Fits(f, log)
    requires Committed(f, log, first, last, tid, start, n)
  {
    UnrolledFits(f, log, first, last, start);
    var u := Unrolled(log, first, last, start);
    WalkForward(f, u, tid, start, n);
    WalkOn(f, u, tid, start, n).next + 1 - start
  }

  /** A committed transaction is passed in `n + 1` turns; the head is then behind its commit block, round the log. */
  lemma TransactionScanned(f: Format, log: Log, first: nat, last: nat, tid: nat, start: nat, head: nat, n: nat)
    requires f.Valid() && first <= start < last && Fits(f, log) && Committed(f, log, first, last, tid, start, n)
    ensures var e := Round(first, last, start + Length(f, log, first, last, tid, start, n));
      && first <= e < last
      && Turns(f, log, first, last, Scan(start, tid, head), n + 1) == More(Scan(e, (tid + 1) % 0x1_0000_0000, e))
  {
    hide WalkOn, Round, Unrolled, CountFrom, Wrap, Fits;
    UnrolledFits(f, log, first, last, start);
    var u := Unrolled(log, first, last, start);
    var c := WalkOn(f, u, tid, start, n).next;
    WalkIsScan(f, log, first, last, tid, start, head, n);
    UnrolledAt(log, first, last, start, c);
    WrapIsRound(first, last, c, 1);
    RoundIn(first, last, c + 1);
  }

  /** Nothing at `e` continues the log with transaction `id`. */
  predicate Stops(log: Log, e: nat, id: nat) {
    e in log && !(log[e].magic == JFS_MAGIC_NUMBER && log[e].sequence == id)
  }

  /** One transaction after the other from `start` on, with numbers from `tid` on. */
  ghost predicate Follow(f: Format, log: Log, first: nat, last: nat, tid: nat, start: nat, ns: seq<nat>)
    requires f.Valid() && first < last && first <= start && Fits(f, log)
    decreases |ns|
  {
    ns == [] ||
    (&& Committed(f, log, first, last, tid, start, ns[0])
     && var e := Round(first, last, start + Length(f, log, first, last, tid, start, ns[0]));
        Follow(f, log, first, last, (tid + 1) % 0x1_0000_0000, e, ns[1..]))
  }

  /** Where they end. */
  ghost function EndOf(f: Format, log: Log, first: nat, last: nat, tid: nat, start: nat, ns: seq<nat>): nat
    requires f.Valid() && first < last && first <= start && Fits(f, log)
    requires Follow(f, log, first, last, tid, start, ns)
    decreases |ns|
  {
    if ns == [] then start
    else
      var e := Round(first, last, start + Length(f, log, first, last, tid, start, ns[0]));
      EndOf(f, log, first, last, (tid + 1) % 0x1_0000_0000, e, ns[1..])
  }

  lemma {:induction false} TurnsAdd(f: Format, log: Log, first: nat, last: nat, s: Scan, a: nat, b: nat)
    requires f.Valid() && first < last && Fits(f, log) && Turns(f, log, first, last, s, a).More?
    ensures Turns(f, log, first, last, s, a + b) ==
            Turns(f, log, first, last, Turns(f, log, first, last, s, a).scan, b)
    decreases b
  {
    hide Turn;
    if b == 0 {
      assert a + b == a;
    } else {
      TurnsAdd(f, log, first, last, s, a, b - 1);
      assert a + b - 1 == a + (b - 1);
    }
  }

  /**
   The scan of a whole log: any number of transactions, each shorter than the log, that lie one behind the other round
   the log, and then a block that does not go on. The scan ends there, with the number of the transaction to come.
   */
  lemma {:induction false} ScanFindsHead(f: Format, log: Log, first: nat, last: nat, tid: nat, start: nat, ns: seq<nat>)
    returns (n: nat)
    requires f.Valid() && first <= start < last && Fits(f, log) && tid < 0x1_0000_0000
    requires Follow(f, log, first, last, tid, start, ns)
    requires Stops(log, EndOf(f, log, first, last, tid, start, ns), (tid + |ns|) % 0x1_0000_0000)
    ensures var e := EndOf(f, log, first, last, tid, start, ns);
      Turns(f, log, first, last, Scan(start, tid, start), n) == Finished(Scan(e, (tid + |ns|) % 0x1_0000_0000, e))
    decreases |ns|
  {
    hide Committed, Length, Turn, Fits, Round, Wrap;
    if ns == [] {
      n := 1;
      StopTurn(f, log, first, last, Scan(start, tid, start));
      assert Turns(f, log, first, last, Scan(start, tid, start), 0) == More(Scan(start, tid, start));
    } else {
      TransactionScanned(f, log, first, last, tid, start, start, ns[0]);
      var e := Round(first, last, start + Length(f, log, first, last, tid, start, ns[0]));
      var id := (tid + 1) % 0x1_0000_0000;
      IdsAdd(tid, |ns|);
      n := ScanFindsHead(f, log, first, last, id, e, ns[1..]);
      TurnsAdd(f, log, first, last, Scan(start, tid, start), ns[0] + 1, n);
      n := ns[0] + 1 + n;
    }
  }

  lemma IdsAdd(tid: nat, k: nat)
    requires k > 0
    ensures ((tid + 1) % 0x1_0000_0000 + (k - 1)) % 0x1_0000_0000 == (tid + k) % 0x1_0000_0000
  {
  }

  lemma StopTurn(f: Format, log: Log, first: nat, last: nat, s: Scan)
    requires f.Valid() && first < last && Fits(f, log) && Stops(log, s.next, s.id)
    ensures Turn(f, log, first, last, s) == Finished(s)
  {
  }

  /** `journal_find_head`; `n` is a number of turns after which the scan of this log has ended. */
  method FindHead(f: Format, log: Log, first: nat, last: nat, sequence: nat, start: nat, ghost n: nat)
    returns (ok: bool, id: nat, head: nat)
    requires f.Valid() && first < last && Fits(f, log)
    requires !Turns(f, log, first, last, Scan(start, sequence, start), n).More?
    ensures var o := Turns(f, log, first, last, Scan(start, sequence, start), n);
      if o.Finished? then ok && id == o.scan.id && head == o.scan.head else !ok
  {
    hide CountFrom;
    var next := start;
    id, head := sequence, start;
    ghost var k := 0;
    while true
      invariant k <= n && Turns(f, log, first, last, Scan(start, sequence, start), k) == More(Scan(next, id, head))
      decreases n - k
    {
      k := k + 1;
      Settled(f, log, first, last, Scan(start, sequence, start), k, n);
      if next !in log {
        return false, id, head;
      }
      var b := log[next];
      next := Wrap(first, last, next + 1);
      if b.magic != JFS_MAGIC_NUMBER {
        return true, id, head;
      }
      if b.sequence != id {
        return true, id, head;
      }
      if b.blocktype == JFS_DESCRIPTOR_BLOCK {
        var tags := CountTags(f, b.body);
        next := Wrap(first, last, next + tags);
      } else if b.blocktype == JFS_COMMIT_BLOCK {
        head := next;
        id := (id + 1) % 0x1_0000_0000;
      } else if b.blocktype != JFS_REVOKE_BLOCK {
        return false, id, head;
      }
    }
  }

  /** Once ended, the scan stays as it is. */
  lemma {:induction false} Settled(f: Format, log: Log, first: nat, last: nat, s: Scan, k: nat, n: nat)
    requires f.Valid() && first < last && Fits(f, log) && !Turns(f, log, first, last, s, n).More?
    requires k > 0 && Turns(f, log, first, last, s, k - 1).More?
    ensures k <= n
    ensures !Turns(f, log, first, last, s, k).More? ==>
      Turns(f, log, first, last, s, n) == Turns(f, log, first, last, s, k)
    decreases n
  {
    Still(f, log, first, last, s, if k - 1 <= n then k - 1 else n, if k - 1 <= n then n else k - 1);
    if k <= n {
      Still(f, log, first, last, s, k, n);
    }
  }

  lemma {:induction false} Still(f: Format, log: Log, first: nat, last: nat, s: Scan, a: nat, b: nat)
    requires f.Valid() && first < last && Fits(f, log) && a <= b
    ensures !Turns(f, log, first, last, s, a).More? ==>
              Turns(f, log, first, last, s, b) == Turns(f, log, first, last, s, a)
    decreases b
  {
    if a == b {
    } else {
      Still(f, log, first, last, s, a, b - 1);
    }
  }
}
