/** Rebuilding the extent tree of an inode (e2fsck-patch/e2fsck/extents.c). */
module Extents {
  import opened Bytes

  const EXT_INIT_MAX_LEN := 32768
  const EXT_UNINIT_MAX_LEN := 32767

  /** `len` blocks from `pblk` on hold the file's blocks from `lblk` on. */
  datatype Extent = Extent(pblk: nat, lblk: nat, len: nat, uninit: bool)

  datatype Mapping = Mapping(lblk: nat, pblk: nat, uninit: bool)

  /** What a walk over the old tree meets. */
  datatype Node = Leaf(extent: Extent) | Internal(pblk: nat) | SecondVisit

  ghost predicate Words(es: seq<Extent>) {
    forall i :: 0 <= i < |es| ==> es[i].len < WORD
  }

  /* ----- meaning: the blocks of the file, one by one ----- */

  function Blocks(e: Extent, n: nat): seq<Mapping> {
    seq(n, i requires 0 <= i < n => Mapping(e.lblk + i, e.pblk + i, e.uninit))
  }

  function Expand(es: seq<Extent>): seq<Mapping> {
    if es == [] then [] else Expand(es[..|es| - 1]) + Blocks(es[|es| - 1], es[|es| - 1].len)
  }

  lemma Assoc(a: seq<Mapping>, b: seq<Mapping>, c: seq<Mapping>)
    ensures (a + b) + c == a + (b + c)
  {
  }

  lemma ExpandSnoc(es: seq<Extent>, e: Extent)
    ensures Expand(es + [e]) == Expand(es) + Blocks(e, e.len)
  {
    assert (es + [e])[..|es|] == es;
  }

  lemma {:induction false} ExpandConcat(a: seq<Extent>, b: seq<Extent>)
    ensures Expand(a + b) == Expand(a) + Expand(b)
  {
    if b == [] {
      assert a + b == a;
    } else {
      var front, e := b[..|b| - 1], b[|b| - 1];
      assert a + b == (a + front) + [e] && b == front + [e];
      hide Expand, Blocks;
      ExpandConcat(a, front);
      ExpandSnoc(a + front, e);
      ExpandSnoc(front, e);
      Assoc(Expand(a), Expand(front), Blocks(e, e.len));
    }
  }

  /* ----- reading: neighbours are joined ----- */

  predicate Joins(last: Extent, e: Extent) {
    last.pblk + last.len == e.pblk && last.lblk + last.len == e.lblk && last.uninit == e.uninit
  }

  /** The list after one more leaf. The length field has 32 bits, and so has the sum that is compared with its limit. */
  function Attach(es: seq<Extent>, e: Extent): seq<Extent> {
    if es != [] && Joins(es[|es| - 1], e) then
      es[|es| - 1 := es[|es| - 1].(len := (es[|es| - 1].len + e.len) % WORD)]
    else
      es + [e]
  }

  function Coalesce(es: seq<Extent>): seq<Extent> {
    if es == [] then [] else Attach(Coalesce(es[..|es| - 1]), es[|es| - 1])
  }

  lemma CoalesceStep(es: seq<Extent>, e: Extent)
    ensures Coalesce(es + [e]) == Attach(Coalesce(es), e)
  {
    assert (es + [e])[..|es|] == es;
  }

  function AttachLong(es: seq<Extent>, e: Extent): seq<Extent> {
    if es != [] && Joins(es[|es| - 1], e) then
      es[|es| - 1 := es[|es| - 1].(len := es[|es| - 1].len + e.len)]
    else
      es + [e]
  }

  /** The same with lengths of any size: the maximal runs of contiguous blocks. */
  function Runs(es: seq<Extent>): seq<Extent> {
    if es == [] then [] else
      AttachLong(Runs(es[..|es| - 1]), es[|es| - 1])
  }

  lemma RunsStep(es: seq<Extent>, e: Extent)
    ensures Runs(es + [e]) == AttachLong(Runs(es), e)
  {
    assert (es + [e])[..|es|] == es;
  }

  lemma JoinBlocks(last: Extent, e: Extent)
    requires Joins(last, e)
    ensures Blocks(last.(len := last.len + e.len), last.len + e.len) == Blocks(last, last.len) + Blocks(e, e.len)
  {
  }

  lemma AttachLongExpand(es: seq<Extent>, e: Extent)
    ensures Expand(AttachLong(es, e)) == Expand(es) + Blocks(e, e.len)
  {
    hide Expand, Blocks;
    if es != [] && Joins(es[|es| - 1], e) {
      var init, last := es[..|es| - 1], es[|es| - 1];
      var longer := last.(len := last.len + e.len);
      JoinBlocks(last, e);
      assert es == init + [last] && AttachLong(es, e) == init + [longer];
      ExpandSnoc(init, longer);
      ExpandSnoc(init, last);
      Assoc(Expand(init), Blocks(last, last.len), Blocks(e, e.len));
    } else {
      ExpandSnoc(es, e);
    }
  }

  lemma {:induction false} RunsExpand(es: seq<Extent>)
    ensures Expand(Runs(es)) == Expand(es)
  {
    if es == [] {
    } else {
      hide Expand, Blocks, Runs, AttachLong;
      var front, e := es[..|es| - 1], es[|es| - 1];
      assert es == front + [e];
      ExpandSnoc(front, e);
      RunsStep(front, e);
      RunsExpand(front);
      AttachLongExpand(Runs(front), e);
    }
  }

  /** One leaf adds at most its blocks; it adds fewer exactly when the length wraps. */
  lemma AttachLength(es: seq<Extent>, e: Extent)
    ensures |Expand(Attach(es, e))| <= |Expand(es)| + e.len
    ensures es != [] && Joins(es[|es| - 1], e) && es[|es| - 1].len + e.len >= WORD ==>
      |Expand(Attach(es, e))| < |Expand(es)| + e.len
  {
    if es != [] && Joins(es[|es| - 1], e) {
      var front, last := es[..|es| - 1], es[|es| - 1];
      var now := last.(len := (last.len + e.len) % WORD);
      assert Attach(es, e) == front + [now];
      ExpandSnoc(front, now);
    } else {
      ExpandSnoc(es, e);
    }
  }

  /** A run that is too long stays too long. */
  lemma RunsGrow(es: seq<Extent>, e: Extent)
    ensures Words(Runs(es + [e])) ==> Words(Runs(es))
  {
    RunsStep(es, e);
    hide Runs;
    var rest, now := Runs(es), Runs(es + [e]);
    forall i | 0 <= i < |rest|
      ensures i < |now| && rest[i].len <= now[i].len
    {
    }
  }

  /** Reading never adds blocks, and loses some as soon as a length wraps. */
  lemma {:induction false} CoalesceLength(es: seq<Extent>)
    requires Words(es)
    ensures |Expand(Coalesce(es))| <= |Expand(es)|
    ensures !Words(Runs(es)) ==> |Expand(Coalesce(es))| < |Expand(es)|
    ensures Words(Runs(es)) ==> Coalesce(es) == Runs(es)
  {
    if es == [] {
    } else {
      hide Expand, Words;
      var front, e := es[..|es| - 1], es[|es| - 1];
      assert Words(front) && e.len < WORD by {
        WordsFront(es);
      }
      CoalesceLength(front);
      AttachLength(Coalesce(front), e);
      RunsGrow(front, e);
      assert es == front + [e];
      ExpandSnoc(front, e);
      CoalesceStep(front, e);
      hide Runs, Coalesce, Attach;
      if Words(Runs(front)) {
        NextRun(front, e);
      }
    }
  }

  lemma WordsFront(es: seq<Extent>)
    requires Words(es) && es != []
    ensures Words(es[..|es| - 1]) && es[|es| - 1].len < WORD
  {
  }

  /** The next leaf either keeps every run short, and is attached without wrapping, or makes the length wrap. */
  lemma NextRun(es: seq<Extent>, e: Extent)
    requires Words(Runs(es)) && e.len < WORD && Coalesce(es) == Runs(es)
    ensures Words(Runs(es + [e])) ==> Attach(Runs(es), e) == Runs(es + [e])
    ensures var rest := Runs(es);
      !Words(Runs(es + [e])) ==> rest != [] && Joins(rest[|rest| - 1], e) && rest[|rest| - 1].len + e.len >= WORD
  {
    RunsStep(es, e);
    hide Runs, Coalesce;
    var rest, now := Runs(es), Runs(es + [e]);
    if rest != [] && Joins(rest[|rest| - 1], e) {
      assert now[|rest| - 1].len == rest[|rest| - 1].len + e.len;
      assert forall i :: 0 <= i < |rest| - 1 ==> now[i] == rest[i];
    } else {
      assert forall i :: 0 <= i < |now| ==> now[i] == if i < |rest| then rest[i] else e;
    }
  }

  /** Reading preserves the mapping exactly when no run of contiguous blocks has 2^32 blocks or more. */
  lemma CoalescePreserves(es: seq<Extent>)
    requires Words(es)
    ensures Expand(Coalesce(es)) == Expand(es) <==> Words(Runs(es))
  {
    CoalesceLength(es);
    RunsExpand(es);
  }

  /** In particular when the whole file is shorter than that. */
  lemma {:induction false} ShortFile(es: seq<Extent>)
    requires |Expand(es)| < WORD
    ensures Words(es) && Words(Runs(es))
  {
    RunsExpand(es);
    EachFits(Runs(es));
    EachFits(es);
  }

  lemma {:induction false} EachFits(es: seq<Extent>)
    ensures forall i :: 0 <= i < |es| ==> es[i].len <= |Expand(es)|
  {
    if es == [] {
    } else {
      EachFits(es[..|es| - 1]);
    }
  }

  /** A contiguous file of `n` leaves, each as long as its 16-bit length field allows. */
  function LongFile(pblk: nat, lblk: nat, n: nat): (r: seq<Extent>)
    ensures |r| == n
  {
    seq(n, k requires 0 <= k < n =>
      Extent(pblk + k * EXT_INIT_MAX_LEN, lblk + k * EXT_INIT_MAX_LEN, EXT_INIT_MAX_LEN, false))
  }

  lemma LongFileStep(pblk: nat, lblk: nat, n: nat)
    ensures LongFile(pblk, lblk, n + 1) == LongFile(pblk, lblk, n) +
              [Extent(pblk + n * EXT_INIT_MAX_LEN, lblk + n * EXT_INIT_MAX_LEN, EXT_INIT_MAX_LEN, false)]
  {
  }

  lemma BlocksLength(e: Extent, n: nat)
    ensures |Blocks(e, n)| == n
  {
  }

  /** Up to 2^17 leaves the list is a single extent, whose length wraps to 0 with the last of them. */
  lemma {:induction false} LongFileJoins(pblk: nat, lblk: nat, n: nat)
    requires 1 <= n <= WORD / EXT_INIT_MAX_LEN
    ensures Coalesce(LongFile(pblk, lblk, n)) == [Extent(pblk, lblk, n * EXT_INIT_MAX_LEN % WORD, false)]
    ensures |Expand(LongFile(pblk, lblk, n))| == n * EXT_INIT_MAX_LEN
    decreases n
  {
    hide Coalesce, Expand, LongFile, Blocks;
    var e := Extent(pblk + (n - 1) * EXT_INIT_MAX_LEN, lblk + (n - 1) * EXT_INIT_MAX_LEN, EXT_INIT_MAX_LEN, false);
    LongFileStep(pblk, lblk, n - 1);
    CoalesceStep(LongFile(pblk, lblk, n - 1), e);
    ExpandSnoc(LongFile(pblk, lblk, n - 1), e);
    BlocksLength(e, EXT_INIT_MAX_LEN);
    if n == 1 {
      NothingLong(pblk, lblk);
    } else {
      LongFileJoins(pblk, lblk, n - 1);
    }
  }

  lemma NothingLong(pblk: nat, lblk: nat)
    ensures LongFile(pblk, lblk, 0) == [] && Coalesce([]) == [] && Expand([]) == []
  {
  }

  /** A contiguous file of 2^32 blocks, in leaves as long as they can be: nothing is left of it. */
  lemma LongRunLost(pblk: nat, lblk: nat, n: nat)
    requires n == WORD / EXT_INIT_MAX_LEN
    ensures var file := LongFile(pblk, lblk, n);
      && (forall k :: 0 <= k < n ==> file[k].len <= EXT_INIT_MAX_LEN)
      && |Expand(file)| == WORD && Expand(Coalesce(file)) == []
  {
    LongFileJoins(pblk, lblk, n);
    var gone := Extent(pblk, lblk, 0, false);
    assert [gone] == [] + [gone];
    ExpandSnoc([], gone);
    NothingLong(pblk, lblk);
    BlocksLength(gone, 0);
  }

  /* ----- writing: long extents are split ----- */

  function MaxLen(e: Extent): nat {
    if e.uninit then EXT_UNINIT_MAX_LEN else EXT_INIT_MAX_LEN
  }

  /** The rest of `e` after its first `n` blocks. */
  function Rest(e: Extent, n: nat): Extent
    requires n <= e.len
  {
    Extent(e.pblk + n, e.lblk + n, e.len - n, e.uninit)
  }

  lemma SplitBlocks(e: Extent, n: nat)
    requires n <= e.len
    ensures Blocks(e, e.len) == Blocks(e, n) + Blocks(Rest(e, n), e.len - n)
  {
  }

  /** What one extent and the ones after it mean. */
  lemma ExpandFirst(es: seq<Extent>, i: nat)
    requires i < |es|
    ensures Expand(es[i..]) == Blocks(es[i], es[i].len) + Expand(es[i + 1..])
  {
    assert es[i..] == [es[i]] + es[i + 1..];
    ExpandConcat([es[i]], es[i + 1..]);
    ExpandSnoc([], es[i]);
    assert [] + [es[i]] == [es[i]];
  }

  lemma KeepStep(written: seq<Extent>, es: seq<Extent>, i: nat)
    requires i < |es|
    ensures Expand(written + [es[i]]) + Expand(es[i + 1..]) == Expand(written) + Expand(es[i..])
  {
    hide Expand, Blocks;
    ExpandSnoc(written, es[i]);
    ExpandFirst(es, i);
    Assoc(Expand(written), Blocks(es[i], es[i].len), Expand(es[i + 1..]));
  }

  lemma SplitStep(written: seq<Extent>, es: seq<Extent>, i: nat, n: nat)
    requires i < |es| && n <= es[i].len
    ensures Expand(written + [es[i].(len := n)]) + Expand(es[i := Rest(es[i], n)][i..]) ==
              Expand(written) + Expand(es[i..])
  {
    hide Expand, Blocks;
    var head, now := es[i].(len := n), es[i := Rest(es[i], n)];
    ExpandSnoc(written, head);
    SameBlocks(es[i], head);
    SplitBlocks(es[i], n);
    ExpandFirst(es, i);
    ExpandFirst(now, i);
    assert now[i + 1..] == es[i + 1..];
    var a, b, c := Blocks(es[i], n), Blocks(Rest(es[i], n), es[i].len - n), Expand(es[i + 1..]);
    Assoc(Expand(written), a, b + c);
    Assoc(a, b, c);
  }

  class ExtentList {
    var extents: seq<Extent>
    var blocksFreed: nat
    var extRead: nat

    constructor ()
      ensures extents == [] && blocksFreed == extRead == 0
    {
      extents, blocksFreed, extRead := [], 0, 0;
    }

    /** `load_extents`, over the nodes in the order in which the walk meets them. */
    method LoadExtents(nodes: seq<Node>)
      requires extents == []
      modifies this
      ensures extents == Coalesce(Leaves(nodes))
      ensures extRead == old(extRead) + |Leaves(nodes)|
      ensures blocksFreed == old(blocksFreed) + |Internals(nodes)|
    {
      var n := 0;
      while n < |nodes|
        invariant 0 <= n <= |nodes|
        invariant extents == Coalesce(Leaves(nodes[..n]))
        invariant extRead == old(extRead) + |Leaves(nodes[..n])|
        invariant blocksFreed == old(blocksFreed) + |Internals(nodes[..n])|
      {
        NodesStep(nodes, n);
        match nodes[n] {
          case SecondVisit =>
          case Internal(_) =>
            blocksFreed := blocksFreed + 1;
          case Leaf(e) =>
            CoalesceStep(Leaves(nodes[..n]), e);
            extRead := extRead + 1;
            AddLeaf(e);
        }
        n := n + 1;
      }
      assert nodes[..n] == nodes;
    }

    method AddLeaf(e: Extent)
      modifies this`extents
      ensures extents == Attach(old(extents), e)
    {
      if |extents| > 0 {
        var last := extents[|extents| - 1];
        var end := (last.len + e.len) % WORD;
        if last.pblk + last.len == e.pblk && last.lblk + last.len == e.lblk && last.uninit == e.uninit && end < WORD {
          extents := extents[|extents| - 1 := last.(len := (last.len + e.len) % WORD)];
          return;
        }
      }
      extents := extents + [e];
    }

    /** `find_blocks`, called for each block of a file that has no extents; negative counts are its index blocks. */
    method FindBlocks(blocknr: nat, blockcnt: int)
      requires forall i :: 0 <= i < |extents| ==> !extents[i].uninit
      modifies this
      ensures extRead == old(extRead)
      ensures forall i :: 0 <= i < |extents| ==> !extents[i].uninit
      ensures blockcnt < 0 ==> extents == old(extents) && blocksFreed == old(blocksFreed) + 1
      ensures blockcnt >= 0 ==> blocksFreed == old(blocksFreed) &&
                                extents == Attach(old(extents), Extent(blocknr, blockcnt, 1, false))
    {
      if blockcnt < 0 {
        blocksFreed := blocksFreed + 1;
        return;
      }
      if |extents| > 0 {
        var last := extents[|extents| - 1];
        var end := (last.len + 1) % WORD;
        if last.lblk + last.len == blockcnt && last.pblk + last.len == blocknr && end < WORD {
          extents := extents[|extents| - 1 := last.(len := (last.len + 1) % WORD)];
          return;
        }
      }
      extents := extents + [Extent(blocknr, blockcnt, 1, false)];
    }

    /**
     The loop of `rebuild_extent_tree` that writes the new tree. An extent that is too long gives up its first
     blocks and is visited again.
     */
    method WriteExtents() returns (written: seq<Extent>)
      modifies this`extents
      ensures Expand(written) == Expand(old(extents))
      ensures forall k :: 0 <= k < |written| ==> written[k].len <= MaxLen(written[k])
    {
      hide Expand, Blocks;
      written := [];
      var i := 0;
      assert extents[0..] == extents;
      ExpandEmpty();
      while i < |extents|
        invariant 0 <= i <= |extents|
        invariant forall k :: 0 <= k < |written| ==> written[k].len <= MaxLen(written[k])
        invariant Expand(written) + Expand(extents[i..]) == Expand(old(extents))
        decreases |extents| - i, if i < |extents| then extents[i].len else 0
      {
        var ex := extents[i];
        var extent := ex;
        if ex.len > MaxLen(ex) {
          SplitStep(written, extents, i, MaxLen(ex));
        } else {
          KeepStep(written, extents, i);
        }
        if extent.uninit {
          if extent.len > EXT_UNINIT_MAX_LEN {
            extent := extent.(len := EXT_UNINIT_MAX_LEN);
            extents := extents[i := Rest(ex, EXT_UNINIT_MAX_LEN)];
            i := i - 1;
          }
        } else {
          if extent.len > EXT_INIT_MAX_LEN {
            extent := extent.(len := EXT_INIT_MAX_LEN);
            extents := extents[i := Rest(ex, EXT_INIT_MAX_LEN)];
            i := i - 1;
          }
        }
        written := written + [extent];
        i := i + 1;
      }
      assert extents[i..] == [];
    }

    /** A file with extents, read and written back: the mapping survives exactly when every run is below 2^32 blocks. */
    method RebuildFromExtents(nodes: seq<Node>) returns (written: seq<Extent>)
      requires extents == [] && Words(Leaves(nodes))
      modifies this
      ensures Expand(written) == Expand(Leaves(nodes)) <==> Words(Runs(Leaves(nodes)))
      ensures forall k :: 0 <= k < |written| ==> written[k].len <= MaxLen(written[k])
    {
      LoadExtents(nodes);
      written := WriteExtents();
      CoalescePreserves(Leaves(nodes));
    }

    /** A file without extents, block by block. */
    method RebuildFromBlocks(blocks: seq<(nat, int)>) returns (written: seq<Extent>)
      requires extents == []
      modifies this
      ensures Expand(written) == Expand(Singles(blocks)) <==> Words(Runs(Singles(blocks)))
      ensures forall k :: 0 <= k < |written| ==> written[k].len <= MaxLen(written[k])
    {
      hide Runs, Expand, Blocks, Coalesce, Attach, Singles, Words;
      assert extents == Coalesce(Singles([])) by {
        NoSingles();
      }
      var n := 0;
      while n < |blocks|
        invariant 0 <= n <= |blocks|
        invariant extents == Coalesce(Singles(blocks[..n]))
        invariant forall i :: 0 <= i < |extents| ==> !extents[i].uninit
      {
        SinglesStep(blocks, n);
        if blocks[n].1 >= 0 {
          CoalesceStep(Singles(blocks[..n]), Extent(blocks[n].0, blocks[n].1, 1, false));
        }
        FindBlocks(blocks[n].0, blocks[n].1);
        n := n + 1;
      }
      assert blocks[..n] == blocks;
      written := WriteExtents();
      CoalescePreserves(Singles(blocks));
    }
  }

  /** The data blocks of a file without extents, each an extent of its own. */
  function Singles(blocks: seq<(nat, int)>): (r: seq<Extent>)
    ensures Words(r)
  {
    if blocks == [] then [] else
      var rest, b := Singles(blocks[..|blocks| - 1]), blocks[|blocks| - 1];
      if b.1 >= 0 then rest + [Extent(b.0, b.1, 1, false)] else rest
  }

  lemma NoSingles()
    ensures Coalesce(Singles([])) == []
  {
  }

  lemma SinglesStep(blocks: seq<(nat, int)>, n: nat)
    requires n < |blocks|
    ensures Singles(blocks[..n + 1]) ==
            if blocks[n].1 >= 0 then Singles(blocks[..n]) + [Extent(blocks[n].0, blocks[n].1, 1, false)]
            else Singles(blocks[..n])
  {
    assert blocks[..n + 1][..n] == blocks[..n];
  }

  lemma NodesStep(nodes: seq<Node>, n: nat)
    requires n < |nodes|
    ensures nodes[n].Leaf? ==> Leaves(nodes[..n + 1]) == Leaves(nodes[..n]) + [nodes[n].extent]
    ensures !nodes[n].Leaf? ==> Leaves(nodes[..n + 1]) == Leaves(nodes[..n])
    ensures |Internals(nodes[..n + 1])| == |Internals(nodes[..n])| + if nodes[n].Internal? then 1 else 0
  {
    assert nodes[..n + 1][..n] == nodes[..n];
  }

  lemma ExpandEmpty()
    ensures Expand([]) == []
  {
  }

  /** The length of an extent plays no part in where its blocks are. */
  lemma SameBlocks(e: Extent, f: Extent)
    requires e.pblk == f.pblk && e.lblk == f.lblk && e.uninit == f.uninit
    ensures Blocks(e, f.len) == Blocks(f, f.len)
  {
  }

  function Leaves(nodes: seq<Node>): seq<Extent> {
    if nodes == [] then [] else
      Leaves(nodes[..|nodes| - 1]) + if nodes[|nodes| - 1].Leaf? then [nodes[|nodes| - 1].extent] else []
  }

  /** The blocks of the old tree's index nodes: these are freed. */
  function Internals(nodes: seq<Node>): seq<nat> {
    if nodes == [] then [] else
      Internals(nodes[..|nodes| - 1]) + if nodes[|nodes| - 1].Internal? then [nodes[|nodes| - 1].pblk] else []
  }
}
