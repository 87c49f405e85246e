/** The tables of multiply-claimed clusters (e2fsck-patch/e2fsck/pass1b.c). */
module Duplicates {
  import opened Distinct

  const EXT2_BAD_INO := 1
  const EXT2_RESIZE_INO := 7

  datatype DupCluster = DupCluster(numBad: nat, inodes: seq<nat>)
  datatype DupInode = DupInode(numDupblocks: nat, clusters: seq<nat>)

  function InodesOf(m: map<nat, DupCluster>, c: nat): seq<nat> {
    if c in m then m[c].inodes else []
  }

  function ClustersOf(m: map<nat, DupInode>, i: nat): seq<nat> {
    if i in m then m[i].clusters else []
  }

  /** An inode is listed under a cluster as often as the cluster under the inode: as often as it was recorded. */
  ghost predicate Transposed(cm: map<nat, DupCluster>, im: map<nat, DupInode>, claims: multiset<(nat, nat)>) {
    forall i, c ::
      multiset(InodesOf(cm, c))[i] == claims[(i, c)] && multiset(ClustersOf(im, i))[c] == claims[(i, c)]
  }

  ghost predicate Counted(cm: map<nat, DupCluster>, im: map<nat, DupInode>) {
    && (forall c :: c in cm ==> cm[c].numBad == |cm[c].inodes| > 0)
    && (forall i :: i in im ==> im[i].numDupblocks == |im[i].clusters| > 0)
  }

  lemma PrependCount<T>(x: T, s: seq<T>, y: T)
    ensures multiset([x] + s)[y] == multiset(s)[y] + if x == y then 1 else 0
  {
  }

  /** Recording one more claim in both tables keeps them transposes of each other. */
  lemma StaysTransposed(cm: map<nat, DupCluster>, im: map<nat, DupInode>, claims: multiset<(nat, nat)>,
                        now: map<nat, DupCluster>, nowi: map<nat, DupInode>, ino: nat, cluster: nat)
    requires Transposed(cm, im, claims)
    requires forall c :: InodesOf(now, c) == if c == cluster then [ino] + InodesOf(cm, c) else InodesOf(cm, c)
    requires forall i :: ClustersOf(nowi, i) == if i == ino then [cluster] + ClustersOf(im, i) else ClustersOf(im, i)
    ensures Transposed(now, nowi, claims + multiset{(ino, cluster)})
  {
    hide InodesOf, ClustersOf;
    var more := claims + multiset{(ino, cluster)};
    forall i, c
      ensures multiset(InodesOf(now, c))[i] == more[(i, c)] && multiset(ClustersOf(nowi, i))[c] == more[(i, c)]
    {
      PrependCount(ino, InodesOf(cm, c), i);
      PrependCount(cluster, ClustersOf(im, i), c);
      assert multiset(InodesOf(cm, c))[i] == claims[(i, c)] && multiset(ClustersOf(im, i))[c] == claims[(i, c)];
      assert more[(i, c)] == claims[(i, c)] + if (i, c) == (ino, cluster) then 1 else 0;
    }
  }

  /** Membership goes both ways. */
  lemma BothWays(cm: map<nat, DupCluster>, im: map<nat, DupInode>, claims: multiset<(nat, nat)>, i: nat, c: nat)
    requires Transposed(cm, im, claims)
    ensures i in InodesOf(cm, c) <==> c in ClustersOf(im, i)
    ensures i in InodesOf(cm, c) ==> c in cm && i in im
  {
    assert multiset(InodesOf(cm, c))[i] == claims[(i, c)] == multiset(ClustersOf(im, i))[c];
    assert i in InodesOf(cm, c) <==> i in multiset(InodesOf(cm, c));
    assert c in ClustersOf(im, i) <==> c in multiset(ClustersOf(im, i));
  }

  class DupTables {
    /** `clstr_dict` and `ino_dict`. */
    var clusters: map<nat, DupCluster>
    var inodes: map<nat, DupInode>
    /** The clusters that hold file-system metadata. */
    const fsClusters: set<nat>

    /** Every claim recorded so far. */
    ghost var claims: multiset<(nat, nat)>

    ghost predicate Valid()
      reads this
    {
      Transposed(clusters, inodes, claims) && Counted(clusters, inodes)
    }

    constructor (fsClusters: set<nat>)
      ensures Valid() && claims == multiset{} && this.fsClusters == fsClusters
    {
      this.fsClusters := fsClusters;
      clusters, inodes, claims := map[], map[], multiset{};
    }

    /** `add_dupe`. */
    method AddDupe(ino: nat, cluster: nat)
      requires Valid()
      modifies this
      ensures Valid() && claims == old(claims) + multiset{(ino, cluster)}
    {
      hide Transposed;
      var db := if cluster in clusters then clusters[cluster] else DupCluster(0, []);
      var di := if ino in inodes then inodes[ino] else DupInode(0, []);
      var cm := clusters[cluster := DupCluster(db.numBad + 1, [ino] + db.inodes)];
      var im := inodes[ino := DupInode(di.numDupblocks + 1, [cluster] + di.clusters)];
      StaysTransposed(clusters, inodes, claims, cm, im, ino, cluster);
      clusters, inodes := cm, im;
      claims := claims + multiset{(ino, cluster)};
    }

    /** Another inode claims a cluster of this one. */
    ghost predicate Shares(ino: nat, other: nat)
      reads this
    {
      other != ino && exists c :: c in ClustersOf(inodes, ino) && other in InodesOf(clusters, c)
    }

    /** What has been collected after the first `n` clusters and `k` inodes of the next. */
    ghost predicate Collected(s: seq<nat>, ino: nat, n: nat, k: nat)
      reads this
      requires ino in inodes && n <= |inodes[ino].clusters|
    {
      && NoDup(s) && (forall j :: j in s ==> Shares(ino, j) && j in inodes)
      && (forall m, j :: 0 <= m < n && j in InodesOf(clusters, inodes[ino].clusters[m]) && j != ino ==> j in s)
      && (n < |inodes[ino].clusters| ==>
            var list := InodesOf(clusters, inodes[ino].clusters[n]);
            k <= |list| && forall j :: 0 <= j < k && list[j] != ino ==> list[j] in s)
    }

    /** There is always room for one more. */
    lemma Room(s: seq<nat>, ino: nat, j: nat)
      requires ino in inodes && j in inodes && j != ino && j !in s && NoDup(s)
      requires forall x :: x in s ==> x in inodes && x != ino
      ensures |s| + 1 < |inodes| && NoDup(s + [j])
    {
      var more := s + [j] + [ino];
      DistinctFit(more, inodes.Keys);
    }

    /** Adds the claimants of one cluster to `shared[]`. */
    method Merge(shared: array<nat>, len: nat, ino: nat, n: nat) returns (now: nat)
      requires Valid() && ino in inodes && n < |inodes[ino].clusters| && inodes[ino].clusters[n] in clusters
      requires shared.Length == |inodes| && len <= shared.Length && Collected(shared[..len], ino, n, 0)
      modifies shared
      ensures now <= shared.Length && Collected(shared[..now], ino, n + 1, 0)
    {
      hide Transposed, Counted;
      var c := inodes[ino].clusters[n];
      var list := clusters[c].inodes;
      now := len;
      var k := 0;
      while k < |list|
        invariant 0 <= k <= |list| && now <= shared.Length && Collected(shared[..now], ino, n, k)
      {
        var j := list[k];
        if j != ino {
          BothWays(clusters, inodes, claims, j, c);
          assert Shares(ino, j);
          ghost var s := shared[..now];
          if j !in s {
            Room(s, ino, j);
          }
          now := AddUnique(shared, now, j);
          OneCollected(s, shared[..now], ino, n, k);
        } else {
          OneCollected(shared[..now], shared[..now], ino, n, k);
        }
        k := k + 1;
      }
      NextCluster(shared[..now], ino, n);
    }

    /** Appends `j` unless it is there. */
    static method AddUnique(shared: array<nat>, len: nat, j: nat) returns (now: nat)
      requires len <= shared.Length && (j in shared[..len] || len < shared.Length)
      modifies shared
      ensures now <= shared.Length
      ensures shared[..now] == if j in old(shared[..len]) then old(shared[..len]) else old(shared[..len]) + [j]
    {
      var i := 0;
      while i < len && shared[i] != j
        invariant 0 <= i <= len && j !in shared[..i]
      {
        i := i + 1;
      }
      now := len;
      if i == len {
        shared[now] := j;
        now := now + 1;
      }
    }

    lemma OneCollected(s: seq<nat>, t: seq<nat>, ino: nat, n: nat, k: nat)
      requires ino in inodes && n < |inodes[ino].clusters| && Collected(s, ino, n, k)
      requires var list := InodesOf(clusters, inodes[ino].clusters[n]);
        && k < |list| && (list[k] == ino ==> t == s)
        && (list[k] != ino ==>
              Shares(ino, list[k]) && list[k] in inodes && t == if list[k] in s then s else s + [list[k]])
      ensures Collected(t, ino, n, k + 1)
    {
      hide Shares;
    }

    lemma NextCluster(s: seq<nat>, ino: nat, n: nat)
      requires ino in inodes && n < |inodes[ino].clusters|
      requires Collected(s, ino, n, |InodesOf(clusters, inodes[ino].clusters[n])|)
      ensures Collected(s, ino, n + 1, 0)
    {
      var list := InodesOf(clusters, inodes[ino].clusters[n]);
      forall j | j in list && j != ino
        ensures j in s
      {
        var k :| 0 <= k < |list| && list[k] == j;
      }
    }

    /**
     The body of `pass1d` for one inode: `shared[]` holds exactly the other claimants of its clusters, each once,
     and never outgrows its allocation. Every lookup of a cluster succeeds.
     */
    method Examine(ino: nat, shared: array<nat>, metaBefore: bool) returns (len: nat, fileOk: bool, meta: bool)
      requires Valid() && ino in inodes && shared.Length == |inodes|
      modifies shared
      ensures len <= shared.Length && NoDup(shared[..len])
      ensures forall j :: j in shared[..len] <==> Shares(ino, j)
      ensures forall j :: j in shared[..len] ==> j in inodes
      ensures meta <==> metaBefore || exists c :: c in inodes[ino].clusters && c in fsClusters
      ensures fileOk <==> forall c :: c in inodes[ino].clusters ==> |InodesOf(clusters, c)| <= 1 && c !in fsClusters
    {
      hide Transposed, Collected;
      len, fileOk, meta := 0, true, metaBefore;
      var list := inodes[ino].clusters;
      NoneCollected(ino);
      var n := 0;
      while n < |list|
        invariant 0 <= n <= |list| && len <= shared.Length && Collected(shared[..len], ino, n, 0)
        invariant meta <==> metaBefore || exists m :: 0 <= m < n && list[m] in fsClusters
        invariant fileOk <==> forall m :: 0 <= m < n ==> |InodesOf(clusters, list[m])| <= 1 && list[m] !in fsClusters
      {
        Known(ino, n);
        var q := clusters[list[n]];
        if q.numBad > 1 {
          fileOk := false;
        }
        if list[n] in fsClusters {
          fileOk, meta := false, true;
        }
        len := Merge(shared, len, ino, n);
        n := n + 1;
      }
      AllCollected(shared[..len], ino);
      ByIndex(list, metaBefore);
    }

    lemma NoneCollected(ino: nat)
      requires ino in inodes
      ensures Collected([], ino, 0, 0)
    {
    }

    lemma Known(ino: nat, n: nat)
      requires Valid() && ino in inodes && n < |inodes[ino].clusters|
      ensures inodes[ino].clusters[n] in clusters
    {
      BothWays(clusters, inodes, claims, ino, inodes[ino].clusters[n]);
    }

    lemma AllCollected(s: seq<nat>, ino: nat)
      requires ino in inodes && Collected(s, ino, |inodes[ino].clusters|, 0)
      ensures NoDup(s) && (forall j :: j in s <==> Shares(ino, j)) && forall j :: j in s ==> j in inodes
    {
      forall j | Shares(ino, j)
        ensures j in s
      {
        var c :| c in ClustersOf(inodes, ino) && j in InodesOf(clusters, c);
        var m :| 0 <= m < |inodes[ino].clusters| && inodes[ino].clusters[m] == c;
      }
    }

    lemma ByIndex(list: seq<nat>, metaBefore: bool)
      ensures (exists m :: 0 <= m < |list| && list[m] in fsClusters) <==> exists c :: c in list && c in fsClusters
      ensures (forall m :: 0 <= m < |list| ==> |InodesOf(clusters, list[m])| <= 1 && list[m] !in fsClusters) <==>
              (forall c :: c in list ==> |InodesOf(clusters, c)| <= 1 && c !in fsClusters)
    {
    }

    ghost predicate OnMetadata(ino: nat)
      reads this
    {
      exists c :: c in ClustersOf(inodes, ino) && c in fsClusters
    }

    /**
     The reports of `pass1d` over the inodes in `order`, without the repairs. The flag for metadata is never reset:
     from the first inode that shares a cluster with the file system on, every count is one higher.
     */
    method Pass1D(order: seq<nat>) returns (reports: seq<Report>)
      requires Valid() && forall k :: 0 <= k < |order| ==> order[k] in inodes
      ensures Correct(reports, Reported(order))
    {
      hide Transposed, Reported, Correct, MetadataBy, OnMetadata, NoDup;
      var shared := new nat[|inodes|];
      var meta := false;
      reports := [];
      var n := 0;
      NothingReported();
      assert order[..0] == [];
      while n < |order|
        invariant 0 <= n <= |order| && Correct(reports, Reported(order[..n]))
        invariant meta <==> MetadataBy(Reported(order[..n]))
      {
        var ino := order[n];
        ReportedStep(order, n);
        if ino != EXT2_BAD_INO && ino != EXT2_RESIZE_INO {
          MetadataSnoc(Reported(order[..n]), ino);
          var len, fileOk;
          len, fileOk, meta := Examine(ino, shared, meta);
          ghost var was := reports;
          reports := reports + [Report(ino, shared[..len], if meta then len + 1 else len)];
          CorrectSnoc(was, Reported(order[..n]), reports[|was|]);
        }
        n := n + 1;
      }
      assert order[..n] == order;
    }

    /** One of these inodes has a cluster in common with the file system's own. */
    ghost predicate MetadataBy(inos: seq<nat>)
      reads this
    {
      exists m :: 0 <= m < |inos| && OnMetadata(inos[m])
    }

    lemma MetadataSnoc(inos: seq<nat>, ino: nat)
      requires ino in inodes
      ensures MetadataBy(inos + [ino]) <==> MetadataBy(inos) || exists c :: c in inodes[ino].clusters && c in fsClusters
    {
      var more := inos + [ino];
      if MetadataBy(inos) {
        var m :| 0 <= m < |inos| && OnMetadata(inos[m]);
        assert OnMetadata(more[m]);
      }
      if OnMetadata(ino) {
        assert OnMetadata(more[|inos|]);
      }
    }

    /** One report for each inode, with the number of inodes it shares with, plus one from the first on metadata on. */
    ghost predicate Correct(reports: seq<Report>, inos: seq<nat>)
      reads this
    {
      && |reports| == |inos|
      && forall k :: 0 <= k < |reports| ==>
                       Right(reports[k], inos[k]) &&
                       reports[k].num == |reports[k].shared| + if MetadataBy(inos[..k + 1]) then 1 else 0
    }

    lemma NothingReported()
      ensures Correct([], Reported([])) && !MetadataBy(Reported([]))
    {
    }

    lemma CorrectSnoc(reports: seq<Report>, inos: seq<nat>, r: Report)
      requires Correct(reports, inos) && Right(r, r.ino)
      requires r.num == |r.shared| + if MetadataBy(inos + [r.ino]) then 1 else 0
      ensures Correct(reports + [r], inos + [r.ino])
    {
      hide Right, MetadataBy;
      var more := inos + [r.ino];
      forall k | 0 <= k < |more|
        ensures Right((reports + [r])[k], more[k])
        ensures (reports + [r])[k].num == |(reports + [r])[k].shared| + if MetadataBy(more[..k + 1]) then 1 else 0
      {
        if k < |inos| {
          assert more[..k + 1] == inos[..k + 1];
        } else {
          assert more[..k + 1] == more;
        }
      }
    }

    /** A report names exactly the inodes that share clusters with this one. */
    ghost predicate Right(r: Report, ino: nat)
      reads this
    {
      r.ino == ino && NoDup(r.shared) && forall j :: j in r.shared <==> Shares(ino, j)
    }
  }

  datatype Report = Report(ino: nat, shared: seq<nat>, num: nat)

  /** The inodes that are reported: all but two reserved ones. */
  function Reported(order: seq<nat>): seq<nat> {
    if order == [] then [] else
      Reported(order[..|order| - 1]) +
      if order[|order| - 1] == EXT2_BAD_INO || order[|order| - 1] == EXT2_RESIZE_INO then [] else [order[|order| - 1]]
  }

  lemma ReportedStep(order: seq<nat>, n: nat)
    requires n < |order|
    ensures Reported(order[..n + 1]) ==
            if order[n] == EXT2_BAD_INO || order[n] == EXT2_RESIZE_INO then Reported(order[..n])
            else Reported(order[..n]) + [order[n]]
  {
    assert order[..n + 1][..n] == order[..n];
  }
}
