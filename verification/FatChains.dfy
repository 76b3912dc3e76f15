/**
 Cluster chains: what a directory entry's first cluster stands for, as the reader's loop follows it,
 and what fat_alloc_cluster does to them.
 */
module FatChains {
  import opened Basics
  import opened FatTable

  /** Entries 0..n of the table. */
  type Links = seq<nat>

  ghost function LinksOf(disk: Disk, fatStart: nat, n: nat): (f: Links)
    requires n > 0 ==> HoldsEntry(disk, fatStart, n - 1)
    ensures |f| == n && forall c: nat :: c < n ==> f[c] == Entry(disk, fatStart, c)
  {
    seq(n, c requires 0 <= c < n => Entry(disk, fatStart, c))
  }

  predicate InUse(f: Links, c: nat) {
    SCAN_START <= c < |f| && f[c] != 0
  }

  predicate IsLast(f: Links, c: nat)
    requires c < |f|
  {
    f[c] >= END_OF_CHAIN
  }

  /** cs is a complete chain: in-use clusters, each linking to the next, the last marked end of chain. */
  ghost predicate IsChain(f: Links, cs: seq<nat>) {
    && cs != []
    && (forall i :: 0 <= i < |cs| ==> InUse(f, cs[i]))
    && (forall i :: 0 <= i < |cs| - 1 ==> f[cs[i]] == cs[i + 1] && !IsLast(f, cs[i]))
    && IsLast(f, cs[|cs| - 1])
  }

  /** Some complete chain starts at c. */
  ghost predicate Heads(f: Links, c: nat) {
    exists cs :: IsChain(f, cs) && cs[0] == c
  }

  /** Every in-use cluster starts a finite chain to an end mark, and no two clusters link to the same one. */
  ghost predicate WellFormed(f: Links) {
    && (forall c: nat :: InUse(f, c) ==> Heads(f, c))
    && (forall c: nat, d: nat :: InUse(f, c) && InUse(f, d) && !IsLast(f, c) && f[c] == f[d] ==> c == d)
  }

  /** The clusters the reader's loop visits: on from c until an end mark, at most fuel of them. */
  function Follow(f: Links, c: nat, fuel: nat): seq<nat>
    decreases fuel
  {
    if fuel == 0 || c >= END_OF_CHAIN || c >= |f| then [] else [c] + Follow(f, f[c], fuel - 1)
  }

  /** The reader's loop started at the head of a chain visits exactly that chain. */
  lemma {:induction false} FollowVisitsChain(f: Links, cs: seq<nat>, fuel: nat)
    requires IsChain(f, cs) && |cs| <= fuel && |f| <= END_OF_CHAIN
    ensures Follow(f, cs[0], fuel) == cs
    decreases |cs|
  {
    if |cs| == 1 {
      assert Follow(f, f[cs[0]], fuel - 1) == [];
    } else {
      ChainTail(f, cs);
      FollowVisitsChain(f, cs[1..], fuel - 1);
    }
  }

  lemma ChainTail(f: Links, cs: seq<nat>)
    requires IsChain(f, cs) && |cs| > 1
    ensures IsChain(f, cs[1..])
  {
  }

  /** Two chains that start at the same cluster are the same chain. */
  lemma {:induction false} ChainIsUnique(f: Links, cs: seq<nat>, ds: seq<nat>)
    requires IsChain(f, cs) && IsChain(f, ds) && cs[0] == ds[0]
    ensures cs == ds
    decreases |cs|
  {
    assert IsLast(f, cs[0]) <==> |cs| == 1;
    assert IsLast(f, ds[0]) <==> |ds| == 1;
    if |cs| > 1 {
      ChainTail(f, cs);
      ChainTail(f, ds);
      ChainIsUnique(f, cs[1..], ds[1..]);
      assert cs == [cs[0]] + cs[1..] && ds == [ds[0]] + ds[1..];
    }
  }

  /** Chains never revisit a cluster. */
  lemma {:induction false} ChainIsAcyclic(f: Links, cs: seq<nat>, i: nat, j: nat)
    requires IsChain(f, cs) && i < j < |cs|
    ensures cs[i] != cs[j]
  {
    if cs[i] == cs[j] {
      ChainSuffix(f, cs, i);
      ChainSuffix(f, cs, j);
      ChainIsUnique(f, cs[i..], cs[j..]);
      assert false;
    }
  }

  lemma ChainSuffix(f: Links, cs: seq<nat>, i: nat)
    requires IsChain(f, cs) && i < |cs|
    ensures IsChain(f, cs[i..])
  {
    var ds := cs[i..];
    forall k | 0 <= k < |ds| - 1
      ensures f[ds[k]] == ds[k + 1] && !IsLast(f, ds[k])
    {
      assert ds[k] == cs[i + k] && ds[k + 1] == cs[i + k + 1];
    }
  }

  lemma LinksAreInjective(f: Links, c: nat, d: nat)
    requires WellFormed(f) && InUse(f, c) && InUse(f, d) && !IsLast(f, c) && f[c] == f[d]
    ensures c == d
  {
  }

  /** In a well-formed table two chains share a cluster only if one is a tail of the other. */
  lemma {:induction false} ChainsShareOnlyTails(f: Links, cs: seq<nat>, ds: seq<nat>, i: nat, j: nat)
    requires WellFormed(f) && IsChain(f, cs) && IsChain(f, ds)
    requires i < |cs| && j < |ds| && cs[i] == ds[j]
    ensures if i <= j then cs == ds[j - i..] else ds == cs[i - j..]
    decreases i
  {
    hide WellFormed;
    if i == 0 {
      ChainSuffix(f, ds, j);
      ChainIsUnique(f, cs, ds[j..]);
    } else if j == 0 {
      ChainSuffix(f, cs, i);
      ChainIsUnique(f, ds, cs[i..]);
    } else {
      assert f[cs[i - 1]] == cs[i] && f[ds[j - 1]] == ds[j];
      LinksAreInjective(f, cs[i - 1], ds[j - 1]);
      ChainsShareOnlyTails(f, cs, ds, i - 1, j - 1);
    }
  }

  // ---------------------------------------------------------------- allocation

  /** A link update of a free cluster leaves every chain alone and adds the new one-element chain. */
  lemma ChainsAfterUpdate(f: Links, c: nat, cs: seq<nat>)
    requires WellFormed(f) && SCAN_START <= c < |f| && f[c] == 0
    ensures IsChain(f[c := END_OF_CHAIN], cs) <==> IsChain(f, cs) || cs == [c]
  {
    var g := f[c := END_OF_CHAIN];
    if IsChain(f, cs) {
      assert forall i :: 0 <= i < |cs| ==> cs[i] != c && g[cs[i]] == f[cs[i]];
    }
    if IsChain(g, cs) && cs != [c] {
      NewClusterIsAlone(f, c, cs);
      assert forall i :: 0 <= i < |cs| ==> g[cs[i]] == f[cs[i]];
    }
  }

  /** Nothing links into a free cluster, so no longer chain can contain it. */
  lemma NewClusterIsAlone(f: Links, c: nat, cs: seq<nat>)
    requires WellFormed(f) && SCAN_START <= c < |f| && f[c] == 0
    requires IsChain(f[c := END_OF_CHAIN], cs) && cs != [c]
    ensures c !in cs
  {
    var g := f[c := END_OF_CHAIN];
    if c in cs {
      var i :| 0 <= i < |cs| && cs[i] == c;
      assert IsLast(g, cs[i]);
      assert i == |cs| - 1;
      assert g[cs[i - 1]] == c;
      NoLinkToFree(f, cs[i - 1], c);
    }
  }

  lemma NoLinkToFree(f: Links, p: nat, c: nat)
    requires WellFormed(f) && InUse(f, p) && !IsLast(f, p) && c < |f| && f[c] == 0
    ensures f[p] != c
  {
    var ds :| IsChain(f, ds) && ds[0] == p;
    if |ds| > 1 {
      assert InUse(f, ds[1]);
    }
  }

  /** Allocation keeps the table well formed. */
  lemma UpdateKeepsWellFormed(f: Links, c: nat)
    requires WellFormed(f) && SCAN_START <= c < |f| && f[c] == 0
    ensures WellFormed(f[c := END_OF_CHAIN])
  {
    var g := f[c := END_OF_CHAIN];
    forall d: nat | InUse(g, d)
      ensures Heads(g, d)
    {
      if d == c {
        ChainsAfterUpdate(f, c, [c]);
        assert IsChain(g, [c]) && [c][0] == c;
      } else {
        assert InUse(f, d);
        var cs :| IsChain(f, cs) && cs[0] == d;
        ChainsAfterUpdate(f, c, cs);
      }
    }
  }

  /** What an allocation as coded does to the first n links. */
  lemma AllocUpdatesLinks(disk: Disk, fatStart: nat, strayRead: byte, strayWrite: byte, n: nat)
    requires ScanOnDisk(disk, fatStart) && 0 < n <= END_OF_CHAIN && HoldsEntry(disk, fatStart, n - 1)
    ensures var (after, c) := AllocAsCoded(disk, fatStart, strayRead, strayWrite);
            var f, g := LinksOf(disk, fatStart, n), LinksOf(after, fatStart, n);
            && (0 < c < n && c != STRADDLER ==> f[c] == 0)
            && g == if 0 < c < n then f[c := MarkedEntry(c, f[c])] else f
  {
    hide Entry, Straddles, AllocAsCoded, TakenCluster, MarkedEntry;
    TakenClusterIsLeast(disk, fatStart, strayRead);
    var (after, c) := AllocAsCoded(disk, fatStart, strayRead, strayWrite);
    var f, g := LinksOf(disk, fatStart, n), LinksOf(after, fatStart, n);
    forall d: nat | d < n
      ensures g[d] == if d == c && c != 0 then MarkedEntry(c, f[d]) else f[d]
    {
      AllocUpdatesOneEntry(disk, fatStart, strayRead, strayWrite, d);
    }
  }

  /** Whatever the table, fat_alloc_cluster keeps every chain that does not run through cluster 341. */
  lemma AllocKeepsOtherChains(disk: Disk, fatStart: nat, strayRead: byte, strayWrite: byte, n: nat, cs: seq<nat>)
    requires ScanOnDisk(disk, fatStart) && 0 < n <= END_OF_CHAIN && HoldsEntry(disk, fatStart, n - 1)
    requires IsChain(LinksOf(disk, fatStart, n), cs) && STRADDLER !in cs
    ensures IsChain(LinksOf(AllocAsCoded(disk, fatStart, strayRead, strayWrite).0, fatStart, n), cs)
    ensures TakenCluster(disk, fatStart, strayRead) !in cs
  {
    hide Entry, AllocAsCoded, TakenCluster, MarkedEntry, LinksOf;
    AllocUpdatesLinks(disk, fatStart, strayRead, strayWrite, n);
    var c := TakenCluster(disk, fatStart, strayRead);
    var f := LinksOf(disk, fatStart, n);
    assert forall i :: 0 <= i < |cs| ==> InUse(f, cs[i]);
    assert c !in cs;
  }

  /** It keeps every chain, whatever lies behind its buffers, exactly if the table is safe or none runs through 341. */
  lemma AllocKeepsEveryChainIff(disk: Disk, fatStart: nat, n: nat)
    requires ScanOnDisk(disk, fatStart) && STRADDLER < n <= END_OF_CHAIN && HoldsEntry(disk, fatStart, n - 1)
    ensures var f := LinksOf(disk, fatStart, n);
            (forall r: byte, w: byte, cs :: IsChain(f, cs) ==>
               IsChain(LinksOf(AllocAsCoded(disk, fatStart, r, w).0, fatStart, n), cs))
            <==> AllocSafe(disk, fatStart) || forall cs :: IsChain(f, cs) ==> STRADDLER !in cs
  {
    hide Entry, AllocAsCoded, AllocSafe, TakenCluster, LinksOf, IsChain;
    var f := LinksOf(disk, fatStart, n);
    forall r: byte, w: byte, cs | IsChain(f, cs) && (AllocSafe(disk, fatStart) || STRADDLER !in cs)
      ensures IsChain(LinksOf(AllocAsCoded(disk, fatStart, r, w).0, fatStart, n), cs)
    {
      SafeAllocKeepsChain(disk, fatStart, r, w, n, cs);
    }
    if cs :| IsChain(f, cs) && STRADDLER in cs && !AllocSafe(disk, fatStart) {
      UnsafeAllocBreaksChain(disk, fatStart, n, cs);
      assert !IsChain(LinksOf(AllocAsCoded(disk, fatStart, 0, 0).0, fatStart, n), cs);
    }
  }

  lemma SafeAllocKeepsChain(disk: Disk, fatStart: nat, strayRead: byte, strayWrite: byte, n: nat, cs: seq<nat>)
    requires ScanOnDisk(disk, fatStart) && 0 < n <= END_OF_CHAIN && HoldsEntry(disk, fatStart, n - 1)
    requires IsChain(LinksOf(disk, fatStart, n), cs) && (AllocSafe(disk, fatStart) || STRADDLER !in cs)
    ensures IsChain(LinksOf(AllocAsCoded(disk, fatStart, strayRead, strayWrite).0, fatStart, n), cs)
  {
    hide Entry, AllocAsCoded, TakenCluster, MarkedEntry, LinksOf, AllocSafe;
    if STRADDLER !in cs {
      AllocKeepsOtherChains(disk, fatStart, strayRead, strayWrite, n, cs);
    } else {
      SafeAllocAvoidsStraddler(disk, fatStart, strayRead);
      AllocUpdatesLinks(disk, fatStart, strayRead, strayWrite, n);
      assert forall i :: 0 <= i < |cs| ==> InUse(LinksOf(disk, fatStart, n), cs[i]);
    }
  }

  /** Taken while in use, cluster 341 gets another link, since its old one has a low nibble of 0. */
  lemma UnsafeAllocBreaksChain(disk: Disk, fatStart: nat, n: nat, cs: seq<nat>)
    requires ScanOnDisk(disk, fatStart) && STRADDLER < n <= END_OF_CHAIN && HoldsEntry(disk, fatStart, n - 1)
    requires !AllocSafe(disk, fatStart) && IsChain(LinksOf(disk, fatStart, n), cs) && STRADDLER in cs
    ensures !IsChain(LinksOf(AllocAsCoded(disk, fatStart, 0, 0).0, fatStart, n), cs)
  {
    hide Entry, AllocAsCoded, TakenCluster, LinksOf, StraddlerNibble;
    TakenClusterCases(disk, fatStart, 0);
    AllocUpdatesLinks(disk, fatStart, 0, 0, n);
    StraddlerNibbleIsLow(disk, fatStart);
    var f := LinksOf(disk, fatStart, n);
    var g := LinksOf(AllocAsCoded(disk, fatStart, 0, 0).0, fatStart, n);
    assert g[STRADDLER] == f[STRADDLER] + 8;
    var i :| 0 <= i < |cs| && cs[i] == STRADDLER;
    if i < |cs| - 1 {
      assert f[cs[i]] == cs[i + 1];
    }
  }

  /** The chain of clusters 341 and 32 is broken when 341 is handed out although it is in use. */
  lemma UsedChainIsBroken()
    ensures var disk: Disk := [CrowdedSector(), seq(SECTOR_SIZE, _ => 2)];
            && HoldsEntry(disk, 0, STRADDLER) && ScanOnDisk(disk, 0)
            && IsChain(LinksOf(disk, 0, 342), [STRADDLER, 32])
            && !IsChain(LinksOf(AllocAsCoded(disk, 0, 0, 0).0, 0, 342), [STRADDLER, 32])
  {
    hide Entry, AllocAsCoded, TakenCluster, CrowdedSector, StraddlerNibble;
    var disk: Disk := [CrowdedSector(), seq(SECTOR_SIZE, _ => 2)];
    forall d: nat | d <= STRADDLER
      ensures HoldsEntry(disk, 0, d) && Entry(disk, 0, d) != 0
    {
      CrowdedEntry(disk, d);
    }
    CrowdedEntry(disk, 32);
    CrowdedEntry(disk, STRADDLER);
    StraddlerNibbleIsLow(disk, 0);
    assert IsChain(LinksOf(disk, 0, 342), [STRADDLER, 32]);
    UnsafeAllocBreaksChain(disk, 0, 342, [STRADDLER, 32]);
  }

  /** On a safe table cluster 341 is never taken. */
  lemma SafeAllocAvoidsStraddler(disk: Disk, fatStart: nat, stray: byte)
    requires ScanOnDisk(disk, fatStart) && AllocSafe(disk, fatStart)
    ensures TakenCluster(disk, fatStart, stray) != STRADDLER
  {
    hide Entry, TakenCluster, StraddlerNibble;
    TakenClusterCases(disk, fatStart, stray);
  }

  /**
   On a safe table fat_alloc_cluster keeps the links well formed, keeps every existing chain as the reader
   follows it, and adds exactly one chain, the fresh cluster on its own, if it takes one of these links.
   */
  lemma AllocKeepsChains(disk: Disk, fatStart: nat, strayRead: byte, strayWrite: byte, n: nat)
    requires ScanOnDisk(disk, fatStart) && 0 < n <= END_OF_CHAIN && HoldsEntry(disk, fatStart, n - 1)
    requires AllocSafe(disk, fatStart) && WellFormed(LinksOf(disk, fatStart, n))
    ensures var (after, c) := AllocAsCoded(disk, fatStart, strayRead, strayWrite);
            var f, g := LinksOf(disk, fatStart, n), LinksOf(after, fatStart, n);
            && WellFormed(g)
            && !InUse(f, c)
            && (forall cs :: IsChain(g, cs) <==> IsChain(f, cs) || (0 < c < n && cs == [c]))
            && (forall cs, fuel: nat :: IsChain(f, cs) && |cs| <= fuel ==> Follow(g, cs[0], fuel) == cs)
  {
    hide Entry, AllocAsCoded, AllocSafe, TakenCluster, LinksOf, WellFormed, IsChain;
    SafeAllocAvoidsStraddler(disk, fatStart, strayRead);
    AllocUpdatesLinks(disk, fatStart, strayRead, strayWrite, n);
    var (after, c) := AllocAsCoded(disk, fatStart, strayRead, strayWrite);
    var f, g := LinksOf(disk, fatStart, n), LinksOf(after, fatStart, n);
    if 0 < c < n {
      assert g == f[c := END_OF_CHAIN];
      UpdateKeepsWellFormed(f, c);
      forall cs
        ensures IsChain(g, cs) <==> IsChain(f, cs) || cs == [c]
      {
        ChainsAfterUpdate(f, c, cs);
      }
    }
    forall cs, fuel: nat | IsChain(f, cs) && |cs| <= fuel
      ensures cs != [] && Follow(g, cs[0], fuel) == cs
    {
      ChainsAreNotEmpty(f, cs);
      FollowVisitsChain(g, cs, fuel);
    }
  }

  lemma ChainsAreNotEmpty(f: Links, cs: seq<nat>)
    requires IsChain(f, cs)
    ensures cs != []
  {
  }
}
