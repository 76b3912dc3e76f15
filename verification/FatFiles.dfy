/**
 Writer and reader together: what saves by kernel/kernel.c mean to the reader of kernel/fs/fat.c.
 */
module FatFiles {
  import opened Basics
  import opened FatTable
  import opened FatChains
  import opened FatVolume
  import opened FatReader
  import opened FatLengths

  /** A volume whose regions are in order and whose first n entries lie in the first FAT and on the disk. */
  predicate Regular(disk: Disk, g: Geometry, sectorsPerFat: nat, n: nat) {
    && LaidOut(g, sectorsPerFat) && g.sectorsPerCluster >= 1
    && 0 < n <= END_OF_CHAIN && InFirstFat(sectorsPerFat, n - 1) && HoldsEntry(disk, g.fatStart, n - 1)
  }

  /** A save writes inside the disk, and its mark inside the first FAT. */
  ghost predicate SaveFits(disk: Disk, g: Geometry, sectorsPerFat: nat, t: Text) {
    Saveable(disk, g, t) && FirstFatSuffices(disk, g, sectorsPerFat)
  }

  // ---------------------------------------------------------------- one save, sector by sector

  /** Of the sectors from the root directory on, a save changes the first one of the new cluster only. */
  lemma SaveKeepsDataSector(disk: Disk, g: Geometry, sectorsPerFat: nat, t: Text, s: nat)
    requires LaidOut(g, sectorsPerFat) && SaveFits(disk, g, sectorsPerFat, t) && g.rootStart <= s < |disk|
    requires var c := TakenCluster(disk, g.fatStart, t.strayRead); c != 0 ==> s != ClusterSector(g, c)
    ensures SaveAsCoded(disk, g, t)[s] == disk[s]
  {
    hide SaveAsCoded, TakenCluster, ClusterSector, SavedSector, InFirstFat, FirstFatSuffices;
    SaveTouchesTwoSectors(disk, g, t, s);
    TakenEntryInFirstFat(disk, g, sectorsPerFat, t.strayRead);
  }

  lemma {:induction false} SameSectorsSameExtent(disk: Disk, after: Disk, lba: nat, n: nat)
    requires |after| == |disk| && lba + n <= |disk|
    requires forall s: nat :: lba <= s < lba + n ==> after[s] == disk[s]
    ensures ExtentData(after, lba, n) == ExtentData(disk, lba, n)
    decreases n
  {
    if n > 0 {
      SameSectorsSameExtent(disk, after, lba + 1, n - 1);
    }
  }

  /** A save leaves every other cluster's sectors alone. */
  lemma SaveKeepsExtent(disk: Disk, g: Geometry, sectorsPerFat: nat, t: Text, d: nat)
    requires LaidOut(g, sectorsPerFat) && g.sectorsPerCluster >= 1 && SaveFits(disk, g, sectorsPerFat, t)
    requires ExtentOnDisk(disk, g, d) && d != TakenCluster(disk, g.fatStart, t.strayRead)
    ensures ExtentData(SaveAsCoded(disk, g, t), ClusterSector(g, d), g.sectorsPerCluster)
         == ExtentData(disk, ClusterSector(g, d), g.sectorsPerCluster)
  {
    hide SaveAsCoded, TakenCluster, ClusterSector, SavedSector, FirstFatSuffices;
    var after := SaveAsCoded(disk, g, t);
    SaveTargetIsOwned(disk, g, t, d);
    forall s: nat | ClusterSector(g, d) <= s < ClusterSector(g, d) + g.sectorsPerCluster
      ensures after[s] == disk[s]
    {
      SaveKeepsDataSector(disk, g, sectorsPerFat, t, s);
    }
    SameSectorsSameExtent(disk, after, ClusterSector(g, d), g.sectorsPerCluster);
  }

  lemma {:induction false} SaveKeepsChainData(disk: Disk, g: Geometry, sectorsPerFat: nat, t: Text, cs: seq<nat>)
    requires LaidOut(g, sectorsPerFat) && g.sectorsPerCluster >= 1 && SaveFits(disk, g, sectorsPerFat, t)
    requires ExtentsOnDisk(disk, g, cs) && TakenCluster(disk, g.fatStart, t.strayRead) !in cs
    ensures ExtentsOnDisk(SaveAsCoded(disk, g, t), g, cs)
    ensures ChainData(SaveAsCoded(disk, g, t), g, cs) == ChainData(disk, g, cs)
    decreases |cs|
  {
    hide SaveAsCoded, TakenCluster, ExtentData, LaidOut, ClusterSector, FirstFatSuffices;
    if cs != [] {
      SaveKeepsExtent(disk, g, sectorsPerFat, t, cs[0]);
      ChainDataUnfolds(disk, g, cs);
      SaveKeepsChainData(disk, g, sectorsPerFat, t, cs[1..]);
      ChainDataUnfolds(SaveAsCoded(disk, g, t), g, cs);
    }
  }

  // ---------------------------------------------------------------- one save, chain by chain

  /** Of the first n links a save changes at most that of the cluster it takes. */
  lemma SaveUpdatesLinks(disk: Disk, g: Geometry, sectorsPerFat: nat, n: nat, t: Text)
    requires Regular(disk, g, sectorsPerFat, n) && SaveFits(disk, g, sectorsPerFat, t)
    ensures var c := TakenCluster(disk, g.fatStart, t.strayRead);
            var f, f' := LinksOf(disk, g.fatStart, n), LinksOf(SaveAsCoded(disk, g, t), g.fatStart, n);
            && (0 < c < n && c != STRADDLER ==> f[c] == 0)
            && f' == if 0 < c < n then f[c := MarkedEntry(c, f[c])] else f
  {
    hide Entry, SaveAsCoded, TakenCluster, LinksOf, MarkedEntry, ClusterSector;
    var c := TakenCluster(disk, g.fatStart, t.strayRead);
    TakenClusterIsLeast(disk, g.fatStart, t.strayRead);
    var f, f' := LinksOf(disk, g.fatStart, n), LinksOf(SaveAsCoded(disk, g, t), g.fatStart, n);
    forall d: nat | d < n
      ensures f'[d] == if d == c && c != 0 then MarkedEntry(c, f[d]) else f[d]
    {
      SaveUpdatesOneEntry(disk, g, sectorsPerFat, t, d);
    }
  }

  /** Every file already on the volume stays a file with the same data, so the reader returns the same for it. */
  lemma SaveKeepsEveryFile(disk: Disk, g: Geometry, sectorsPerFat: nat, n: nat, t: Text, cs: seq<nat>)
    requires Regular(disk, g, sectorsPerFat, n) && SaveFits(disk, g, sectorsPerFat, t)
    requires FileChain(disk, g, n, cs)
    ensures FileChain(SaveAsCoded(disk, g, t), g, n, cs)
    ensures ChainData(SaveAsCoded(disk, g, t), g, cs) == ChainData(disk, g, cs)
    ensures TakenCluster(disk, g.fatStart, t.strayRead) !in cs
  {
    hide Entry, SaveAsCoded, TakenCluster, LinksOf, ChainData, Straddles, ExtentsOnDisk, LaidOut, ClusterSector;
    hide InFirstFat, FirstFatSuffices, MarkedEntry;
    SaveUpdatesLinks(disk, g, sectorsPerFat, n, t);
    StraddlesIff(STRADDLER);
    assert TakenCluster(disk, g.fatStart, t.strayRead) !in cs by {
      assert forall i :: 0 <= i < |cs| ==> InUse(LinksOf(disk, g.fatStart, n), cs[i]);
    }
    SaveKeepsChainData(disk, g, sectorsPerFat, t, cs);
  }

  /** On a safe table the links stay well formed and gain at most the new cluster as a chain. */
  lemma SaveKeepsWellFormed(disk: Disk, g: Geometry, sectorsPerFat: nat, n: nat, t: Text, cs: seq<nat>)
    requires Regular(disk, g, sectorsPerFat, n) && SaveFits(disk, g, sectorsPerFat, t)
    requires AllocSafe(disk, g.fatStart) && WellFormed(LinksOf(disk, g.fatStart, n))
    ensures var c := TakenCluster(disk, g.fatStart, t.strayRead);
            var f, f' := LinksOf(disk, g.fatStart, n), LinksOf(SaveAsCoded(disk, g, t), g.fatStart, n);
            WellFormed(f') && (IsChain(f', cs) <==> IsChain(f, cs) || (0 < c < n && cs == [c]))
  {
    hide Entry, SaveAsCoded, TakenCluster, LinksOf, WellFormed, InFirstFat, FirstFatSuffices, Straddles, AllocSafe;
    hide IsChain, ClusterSector;
    SafeAllocAvoidsStraddler(disk, g.fatStart, t.strayRead);
    SaveUpdatesLinks(disk, g, sectorsPerFat, n, t);
    var c := TakenCluster(disk, g.fatStart, t.strayRead);
    if 0 < c < n {
      UpdateKeepsWellFormed(LinksOf(disk, g.fatStart, n), c);
      ChainsAfterUpdate(LinksOf(disk, g.fatStart, n), c, cs);
    }
  }

  // ---------------------------------------------------------------- one save, the directory

  lemma {:induction false} SaveKeepsScan(disk: Disk, g: Geometry, sectorsPerFat: nat, t: Text, first: char8, k: nat)
    requires LaidOut(g, sectorsPerFat) && SaveFits(disk, g, sectorsPerFat, t)
    ensures Scan(Drive(SaveAsCoded(disk, g, t), {}), g, first, k) == Scan(Drive(disk, {}), g, first, k)
    decreases g.rootEntries - k
  {
    hide SaveAsCoded, SaveFits, Matches, ReadSector;
    if k < g.rootEntries {
      SaveKeepsSlot(disk, g, sectorsPerFat, t, k);
      SaveKeepsScan(disk, g, sectorsPerFat, t, first, k + 1);
    }
  }

  lemma SaveKeepsSlot(disk: Disk, g: Geometry, sectorsPerFat: nat, t: Text, k: nat)
    requires LaidOut(g, sectorsPerFat) && SaveFits(disk, g, sectorsPerFat, t)
    requires k < g.rootEntries
    ensures var lba := g.rootStart + k / ENTRIES_PER_SECTOR;
            ReadSector(Drive(SaveAsCoded(disk, g, t), {}), lba) == ReadSector(Drive(disk, {}), lba)
  {
    hide SaveAsCoded, TakenCluster, ClusterSector, FirstFatSuffices;
    var lba := g.rootStart + k / ENTRIES_PER_SECTOR;
    assert lba < g.dataStart;
    if lba < |disk| {
      SaveKeepsDataSector(disk, g, sectorsPerFat, t, lba);
    }
  }

  /** A save changes nothing of what the directory says about a file it holds. */
  lemma SaveKeepsTarget(disk: Disk, g: Geometry, sectorsPerFat: nat, t: Text, first: char8, stale: Stale)
    requires LaidOut(g, sectorsPerFat) && SaveFits(disk, g, sectorsPerFat, t)
    requires Scan(Drive(disk, {}), g, first, 0).Found?
    ensures Scan(Drive(SaveAsCoded(disk, g, t), {}), g, first, 0) == Scan(Drive(disk, {}), g, first, 0)
    ensures Target(Drive(SaveAsCoded(disk, g, t), {}), g, first, stale) == Target(Drive(disk, {}), g, first, stale)
  {
    hide SaveAsCoded, SaveFits, Scan, SlotCluster, SlotSize, ReadSector;
    SaveKeepsScan(disk, g, sectorsPerFat, t, first, 0);
    SaveKeepsSlot(disk, g, sectorsPerFat, t, Scan(Drive(disk, {}), g, first, 0).slot);
  }

  // ---------------------------------------------------------------- the saved text

  /** Cluster c is a chain of its own that starts with the given sector. */
  predicate HoldsText(disk: Disk, g: Geometry, c: nat, sec: Sector) {
    && SCAN_START <= c < END_OF_CHAIN && HoldsEntry(disk, g.fatStart, c) && !Straddles(c)
    && Entry(disk, g.fatStart, c) == END_OF_CHAIN
    && ClusterSector(g, c) < |disk| && disk[ClusterSector(g, c)] == sec
  }

  /** Asked for one sector, the reader started at a saved cluster returns the text. */
  lemma SavedTextReadsBack(disk: Disk, g: Geometry, stray: byte, c: nat, sec: Sector, fuel: nat)
    requires HoldsText(disk, g, c, sec) && g.sectorsPerCluster >= 1 && fuel >= 1
    ensures Exits(Drive(disk, {}), g, stray, c, SECTOR_SIZE, fuel)
    ensures CopyLoop(Drive(disk, {}), g, stray, c, SECTOR_SIZE, fuel) == sec
  {
    hide Entry, Straddles, ClusterSector, NextCluster;
    var d := Drive(disk, {});
    var lba := ClusterSector(g, c);
    NextClusterFollowsLink(disk, g.fatStart, stray, c);
    assert Subtract(SECTOR_SIZE) == 0;
    assert CopySectors(d, lba + 1, g.sectorsPerCluster - 1, 0) == Pass([], 0, true);
    assert CopySectors(d, lba, g.sectorsPerCluster, SECTOR_SIZE) == Pass(sec, 0, true);
    LoopEnd(d, g, stray, END_OF_CHAIN, 0, fuel - 1);
  }

  /** A save that takes any cluster but 341 leaves its text behind as a chain of its own. */
  lemma SaveHoldsText(disk: Disk, g: Geometry, sectorsPerFat: nat, t: Text)
    requires LaidOut(g, sectorsPerFat) && SaveFits(disk, g, sectorsPerFat, t)
    ensures var c := TakenCluster(disk, g.fatStart, t.strayRead);
            c != 0 && c != STRADDLER ==> HoldsText(SaveAsCoded(disk, g, t), g, c, SavedSector(t.bytes, t.pos))
  {
    hide Entry, SaveAsCoded, TakenCluster, ClusterSector, Straddles, InFirstFat, SavedSector, FirstFatSuffices;
    var c := TakenCluster(disk, g.fatStart, t.strayRead);
    TakenClusterIsLeast(disk, g.fatStart, t.strayRead);
    if c != 0 && c != STRADDLER {
      TakenEntryInFirstFat(disk, g, sectorsPerFat, t.strayRead);
      SaveUpdatesOneEntry(disk, g, sectorsPerFat, t, c);
      ClusterBehindFat(g, sectorsPerFat, c);
      SaveTouchesTwoSectors(disk, g, t, ClusterSector(g, c));
    }
  }

  /** A later save overwrites no earlier text. */
  lemma SaveKeepsText(disk: Disk, g: Geometry, sectorsPerFat: nat, t: Text, c: nat, sec: Sector)
    requires LaidOut(g, sectorsPerFat) && g.sectorsPerCluster >= 1 && SaveFits(disk, g, sectorsPerFat, t)
    requires InFirstFat(sectorsPerFat, c) && HoldsText(disk, g, c, sec)
    ensures HoldsText(SaveAsCoded(disk, g, t), g, c, sec)
    ensures c != TakenCluster(disk, g.fatStart, t.strayRead)
  {
    hide Entry, SaveAsCoded, TakenCluster, Straddles, InFirstFat, ClusterSector, FirstFatSuffices;
    TakenClusterIsLeast(disk, g.fatStart, t.strayRead);
    StraddlesIff(STRADDLER);
    SaveUpdatesOneEntry(disk, g, sectorsPerFat, t, c);
    SaveTargetIsOwned(disk, g, t, c);
    SectorInOwnExtent(g, c);
    ClusterBehindFat(g, sectorsPerFat, c);
    SaveKeepsDataSector(disk, g, sectorsPerFat, t, ClusterSector(g, c));
  }

  // ---------------------------------------------------------------- runs of saves

  ghost predicate SavesFit(disk: Disk, g: Geometry, sectorsPerFat: nat, texts: seq<Text>)
    decreases |texts|
  {
    texts != [] ==>
      && SaveFits(disk, g, sectorsPerFat, texts[0])
      && SavesFit(SaveAsCoded(disk, g, texts[0]), g, sectorsPerFat, texts[1..])
  }

  ghost function SaveAll(disk: Disk, g: Geometry, sectorsPerFat: nat, texts: seq<Text>): (after: Disk)
    requires SavesFit(disk, g, sectorsPerFat, texts)
    ensures |after| == |disk|
    decreases |texts|
  {
    if texts == [] then disk else SaveAll(SaveAsCoded(disk, g, texts[0]), g, sectorsPerFat, texts[1..])
  }

  /** The clusters a run of saves takes, 0 where there is none left. */
  ghost function SaveClusters(disk: Disk, g: Geometry, sectorsPerFat: nat, texts: seq<Text>): (cs: seq<nat>)
    requires SavesFit(disk, g, sectorsPerFat, texts)
    ensures |cs| == |texts|
    decreases |texts|
  {
    if texts == [] then []
    else [TakenCluster(disk, g.fatStart, texts[0].strayRead)]
         + SaveClusters(SaveAsCoded(disk, g, texts[0]), g, sectorsPerFat, texts[1..])
  }

  /** Over any run of saves every file stays a file with the same data, and its clusters are taken by none of them. */
  lemma {:induction false} SavesKeepFile(disk: Disk, g: Geometry, sectorsPerFat: nat, n: nat, texts: seq<Text>,
                                         cs: seq<nat>)
    requires Regular(disk, g, sectorsPerFat, n) && SavesFit(disk, g, sectorsPerFat, texts) && FileChain(disk, g, n, cs)
    ensures FileChain(SaveAll(disk, g, sectorsPerFat, texts), g, n, cs)
    ensures ChainData(SaveAll(disk, g, sectorsPerFat, texts), g, cs) == ChainData(disk, g, cs)
    ensures forall c <- SaveClusters(disk, g, sectorsPerFat, texts) :: c !in cs
    decreases |texts|
  {
    hide SaveAsCoded, TakenCluster, LaidOut, FileChain, ChainData, InFirstFat, FirstFatSuffices, ClusterSector;
    if texts != [] {
      SaveKeepsEveryFile(disk, g, sectorsPerFat, n, texts[0], cs);
      SavesKeepFile(SaveAsCoded(disk, g, texts[0]), g, sectorsPerFat, n, texts[1..], cs);
    }
  }

  lemma {:induction false} SavesKeepTarget(disk: Disk, g: Geometry, sectorsPerFat: nat, texts: seq<Text>,
                                           first: char8, stale: Stale)
    requires LaidOut(g, sectorsPerFat) && SavesFit(disk, g, sectorsPerFat, texts)
    requires Scan(Drive(disk, {}), g, first, 0).Found?
    ensures var after := SaveAll(disk, g, sectorsPerFat, texts);
            && Scan(Drive(after, {}), g, first, 0) == Scan(Drive(disk, {}), g, first, 0)
            && Target(Drive(after, {}), g, first, stale) == Target(Drive(disk, {}), g, first, stale)
    decreases |texts|
  {
    hide SaveAsCoded, TakenCluster, LaidOut, FirstFatSuffices, Target, Scan, ClusterSector;
    if texts != [] {
      SaveKeepsTarget(disk, g, sectorsPerFat, texts[0], first, stale);
      SavesKeepTarget(SaveAsCoded(disk, g, texts[0]), g, sectorsPerFat, texts[1..], first, stale);
    }
  }

  /** Whole calls: whatever is saved in between, reading a file that was there before gives the same result. */
  lemma SavesKeepEveryRead(disk: Disk, g: Geometry, sectorsPerFat: nat, n: nat, texts: seq<Text>, cs: seq<nat>,
                           first: char8, maxSize: uint32, stray: byte, stale: Stale, fuel: nat)
    requires Regular(disk, g, sectorsPerFat, n) && SavesFit(disk, g, sectorsPerFat, texts)
    requires FileChain(disk, g, n, cs) && fuel >= |cs|
    requires Scan(Drive(disk, {}), g, first, 0).Found? && cs[0] == Target(Drive(disk, {}), g, first, stale).0
    ensures FatRead(Drive(SaveAll(disk, g, sectorsPerFat, texts), {}), g, true, first, maxSize, stray, stale, fuel)
         == FatRead(Drive(disk, {}), g, true, first, maxSize, stray, stale, fuel)
  {
    hide Scan, Target, FatRead, FileChain, ChainData, SavesFit, SaveAll, SaveClusters, LaidOut;
    SavesKeepFile(disk, g, sectorsPerFat, n, texts, cs);
    SavesKeepTarget(disk, g, sectorsPerFat, texts, first, stale);
    FoundFileIsRead(disk, g, first, maxSize, stray, stale, n, cs, fuel);
    FoundFileIsRead(SaveAll(disk, g, sectorsPerFat, texts), g, first, maxSize, stray, stale, n, cs, fuel);
  }

  lemma {:induction false} SavesKeepText(disk: Disk, g: Geometry, sectorsPerFat: nat, texts: seq<Text>,
                                         c: nat, sec: Sector)
    requires LaidOut(g, sectorsPerFat) && g.sectorsPerCluster >= 1 && SavesFit(disk, g, sectorsPerFat, texts)
    requires InFirstFat(sectorsPerFat, c) && HoldsText(disk, g, c, sec)
    ensures HoldsText(SaveAll(disk, g, sectorsPerFat, texts), g, c, sec)
    decreases |texts|
  {
    hide SaveAsCoded, TakenCluster, LaidOut, FirstFatSuffices, HoldsText, InFirstFat, ClusterSector;
    if texts != [] {
      SaveKeepsText(disk, g, sectorsPerFat, texts[0], c, sec);
      SavesKeepText(SaveAsCoded(disk, g, texts[0]), g, sectorsPerFat, texts[1..], c, sec);
    }
  }

  /** At the end of a run every text is on the disk, unless its save found no cluster or took 341. */
  lemma {:induction false} SavesAreAllKept(disk: Disk, g: Geometry, sectorsPerFat: nat, texts: seq<Text>, i: nat)
    requires LaidOut(g, sectorsPerFat) && g.sectorsPerCluster >= 1 && SavesFit(disk, g, sectorsPerFat, texts)
    requires i < |texts|
    ensures var c := SaveClusters(disk, g, sectorsPerFat, texts)[i];
            |texts[i].bytes| >= SECTOR_SIZE &&
            (c != 0 && c != STRADDLER ==>
               HoldsText(SaveAll(disk, g, sectorsPerFat, texts), g, c, SavedSector(texts[i].bytes, texts[i].pos)))
    decreases |texts|
  {
    hide SaveAsCoded, TakenCluster, LaidOut, FirstFatSuffices, HoldsText, InFirstFat, SavedSector, ClusterSector;
    var t := texts[0];
    var after := SaveAsCoded(disk, g, t);
    if i > 0 {
      SavesAreAllKept(after, g, sectorsPerFat, texts[1..], i - 1);
    } else {
      var c := TakenCluster(disk, g.fatStart, t.strayRead);
      if c != 0 && c != STRADDLER {
        SaveHoldsText(disk, g, sectorsPerFat, t);
        TakenEntryInFirstFat(disk, g, sectorsPerFat, t.strayRead);
        SavesKeepText(after, g, sectorsPerFat, texts[1..], c, SavedSector(t.bytes, t.pos));
      }
    }
  }

  /** Every cluster up to c is in use, entry 341 at least as far as it is looked at if c is 341. */
  ghost predicate UsedUpTo(disk: Disk, g: Geometry, sectorsPerFat: nat, c: nat)
    requires ScanOnDisk(disk, g.fatStart)
  {
    && c < SCAN_END && (sectorsPerFat >= 2 || c <= STRADDLER)
    && (forall d: nat :: SCAN_START <= d <= c && d != STRADDLER ==>
          HoldsEntry(disk, g.fatStart, d) && Entry(disk, g.fatStart, d) != 0)
    && (c == STRADDLER ==> StraddlerNibble(disk, g.fatStart) != 0)
  }

  lemma SaveKeepsUsedUpTo(disk: Disk, g: Geometry, sectorsPerFat: nat, t: Text, c: nat)
    requires LaidOut(g, sectorsPerFat) && SaveFits(disk, g, sectorsPerFat, t)
    requires UsedUpTo(disk, g, sectorsPerFat, c)
    ensures UsedUpTo(SaveAsCoded(disk, g, t), g, sectorsPerFat, c)
  {
    hide Entry, SaveAsCoded, TakenCluster, FirstFatSuffices, StraddlerNibble, ClusterSector;
    SaveKeepsStraddlerNibble(disk, g, sectorsPerFat, t);
    forall d: nat | SCAN_START <= d <= c && d != STRADDLER
      ensures HoldsEntry(disk, g.fatStart, d) && Entry(SaveAsCoded(disk, g, t), g.fatStart, d) != 0
    {
      SaveKeepsUsed(disk, g, sectorsPerFat, t, d);
    }
  }

  lemma SaveUsesUpTo(disk: Disk, g: Geometry, sectorsPerFat: nat, t: Text)
    requires LaidOut(g, sectorsPerFat) && SaveFits(disk, g, sectorsPerFat, t)
    requires TakenCluster(disk, g.fatStart, t.strayRead) != 0
    ensures UsedUpTo(SaveAsCoded(disk, g, t), g, sectorsPerFat, TakenCluster(disk, g.fatStart, t.strayRead))
  {
    hide Entry, SaveAsCoded, TakenCluster, FirstFatSuffices, StraddlerNibble, ClusterSector;
    var c := TakenCluster(disk, g.fatStart, t.strayRead);
    TakenClusterIsLeast(disk, g.fatStart, t.strayRead);
    TakenEntryInFirstFat(disk, g, sectorsPerFat, t.strayRead);
    SaveKeepsStraddlerNibble(disk, g, sectorsPerFat, t);
    forall d: nat | SCAN_START <= d <= c && d != STRADDLER
      ensures HoldsEntry(disk, g.fatStart, d) && Entry(SaveAsCoded(disk, g, t), g.fatStart, d) != 0
    {
      ScannedEntry(disk, g.fatStart, d);
      SaveKeepsUsed(disk, g, sectorsPerFat, t, d);
    }
  }

  /** No save of a run takes a cluster that is in use, apart from 341. */
  lemma {:induction false} SavesTakeLater(disk: Disk, g: Geometry, sectorsPerFat: nat, texts: seq<Text>, j: nat, c: nat)
    requires LaidOut(g, sectorsPerFat) && SavesFit(disk, g, sectorsPerFat, texts) && j < |texts|
    requires ScanOnDisk(disk, g.fatStart) && UsedUpTo(disk, g, sectorsPerFat, c)
    ensures var next := SaveClusters(disk, g, sectorsPerFat, texts)[j];
            next == 0 || next > c || (next == STRADDLER && c != STRADDLER)
    decreases |texts|
  {
    hide Entry, SaveAsCoded, TakenCluster, LaidOut, FirstFatSuffices, StraddlerNibble, ClusterSector;
    if j == 0 {
      TakenClusterIsLeast(disk, g.fatStart, texts[0].strayRead);
      TakenAtStraddler(disk, g.fatStart, texts[0].strayRead);
    } else {
      SaveKeepsUsedUpTo(disk, g, sectorsPerFat, texts[0], c);
      SavesTakeLater(SaveAsCoded(disk, g, texts[0]), g, sectorsPerFat, texts[1..], j - 1, c);
    }
  }

  /** In a run no cluster is taken twice, and apart from 341 the clusters taken increase strictly. */
  lemma {:induction false} SavesTakeIncreasingClusters(disk: Disk, g: Geometry, sectorsPerFat: nat, texts: seq<Text>,
                                                       i: nat, j: nat)
    requires LaidOut(g, sectorsPerFat) && SavesFit(disk, g, sectorsPerFat, texts) && i < j < |texts|
    ensures var cs := SaveClusters(disk, g, sectorsPerFat, texts);
            cs[i] != 0 && cs[j] != 0 ==> cs[i] != cs[j] && (cs[j] != STRADDLER ==> cs[i] < cs[j])
    decreases |texts|
  {
    hide SaveAsCoded, TakenCluster, LaidOut, FirstFatSuffices, ClusterSector, UsedUpTo;
    var after := SaveAsCoded(disk, g, texts[0]);
    if i > 0 {
      SavesTakeIncreasingClusters(after, g, sectorsPerFat, texts[1..], i - 1, j - 1);
    } else {
      var c := TakenCluster(disk, g.fatStart, texts[0].strayRead);
      if c != 0 {
        SaveUsesUpTo(disk, g, sectorsPerFat, texts[0]);
        SavesTakeLater(after, g, sectorsPerFat, texts[1..], j - 1, c);
      }
    }
  }

  // ---------------------------------------------------------------- a concrete volume

  /** A volume with one file, B, in cluster 2: the theorems above apply to it, and the next save takes cluster 3. */
  lemma VolumeWithOneFile(boot: Sector, data: Sector, last: Sector, t: Text)
    requires |t.bytes| >= SECTOR_SIZE
    ensures var disk := [boot, OneClusterFat(0xFF8), FilledSector(0), OneFileDirectory(0x42, 2), data, last];
            var g := Geometry(1, 3, 4, SECTOR_SIZE, 1, 16);
            && Regular(disk, g, 2, 512) && FileChain(disk, g, 512, [2])
            && Scan(Drive(disk, {}), g, 0x42, 0) == Found(15)
            && (forall stale: Stale :: Target(Drive(disk, {}), g, 0x42, stale) == (2, 512))
            && SavesFit(disk, g, 2, [t]) && SaveClusters(disk, g, 2, [t]) == [3]
  {
    hide OneClusterFat, OneFileDirectory, Entry, Straddles, Scan, Matches, SlotCluster, SlotSize, TakenCluster, LinksOf;
    hide SaveAsCoded, StraddlerNibble;
    var disk: Disk := [boot, OneClusterFat(0xFF8), FilledSector(0), OneFileDirectory(0x42, 2), data, last];
    var g := Geometry(1, 3, 4, SECTOR_SIZE, 1, 16);
    OneClusterLink(disk, 1, 0xFF8);
    assert FileChain(disk, g, 512, [2]);
    OneFileSlots(disk[3], 0x42, 2, 0x42);
    OneFileScan(Drive(disk, {}), g, 0x42, 2, 0x42, 0);
    assert ScanOnDisk(disk, 1);
    TakenClusterIsLeast(disk, 1, t.strayRead);
    TakenAtStraddler(disk, 1, t.strayRead);
    assert FreeBelowStraddle(disk, 1);
    TakenClusterCases(disk, 1, t.strayRead);
    assert TakenCluster(disk, 1, t.strayRead) == 3;
    assert SavesFit(disk, g, 2, [t]);
  }
}
