/**
 What the chain walk of kernel/fs/fat.c returns, for every 32-bit length, and when it ends.  The loop
 subtracts the sector size from an unsigned counter and stops when the counter is zero or the chain ends;
 for a length that is not a whole number of sectors the counter wraps past zero and only the chain's end
 stops it.
 */
module FatLengths {
  import opened Basics
  import opened FatTable
  import opened FatChains
  import opened FatVolume
  import opened FatReader

  // ---------------------------------------------------------------- files

  ghost function ExtentData(disk: Disk, lba: nat, n: nat): (data: seq<byte>)
    requires lba + n <= |disk|
    ensures |data| == n * SECTOR_SIZE
    decreases n
  {
    if n == 0 then [] else disk[lba] + ExtentData(disk, lba + 1, n - 1)
  }

  predicate ExtentOnDisk(disk: Disk, g: Geometry, c: nat) {
    c >= SCAN_START && ClusterSector(g, c) + g.sectorsPerCluster <= |disk|
  }

  ghost predicate ExtentsOnDisk(disk: Disk, g: Geometry, cs: seq<nat>) {
    forall i :: 0 <= i < |cs| ==> ExtentOnDisk(disk, g, cs[i])
  }

  /** cs is a complete chain of the first n entries, its clusters on the disk and their entries not straddling. */
  ghost predicate FileChain(disk: Disk, g: Geometry, n: nat, cs: seq<nat>) {
    && 0 < n <= END_OF_CHAIN && HoldsEntry(disk, g.fatStart, n - 1)
    && IsChain(LinksOf(disk, g.fatStart, n), cs) && ExtentsOnDisk(disk, g, cs)
    && forall i :: 0 <= i < |cs| ==> !Straddles(cs[i])
  }

  /** The concatenated sectors of the clusters of a chain. */
  ghost function ChainData(disk: Disk, g: Geometry, cs: seq<nat>): seq<byte>
    requires ExtentsOnDisk(disk, g, cs)
    decreases |cs|
  {
    if cs == [] then [] else
    assert forall i :: 0 <= i < |cs[1..]| ==> cs[1..][i] == cs[i + 1];
    ExtentData(disk, ClusterSector(g, cs[0]), g.sectorsPerCluster) + ChainData(disk, g, cs[1..])
  }

  /** The clusters after the first of a chain on disk are a chain on disk. */
  lemma ChainDataUnfolds(disk: Disk, g: Geometry, cs: seq<nat>)
    requires ExtentsOnDisk(disk, g, cs) && cs != []
    ensures ExtentsOnDisk(disk, g, cs[1..])
    ensures ChainData(disk, g, cs)
         == ExtentData(disk, ClusterSector(g, cs[0]), g.sectorsPerCluster) + ChainData(disk, g, cs[1..])
  {
    assert forall i :: 0 <= i < |cs[1..]| ==> cs[1..][i] == cs[i + 1];
  }

  lemma NoClustersNoData(disk: Disk, g: Geometry)
    ensures ExtentsOnDisk(disk, g, []) && ChainData(disk, g, []) == []
  {
  }

  function Cut(s: seq<byte>, n: nat): seq<byte> {
    if n <= |s| then s[..n] else s
  }

  /** What the walk takes of the data of a chain: the cut for a whole-sector length, everything for any other. */
  function Taken(s: seq<byte>, length: uint32): seq<byte> {
    if length % SECTOR_SIZE == 0 then Cut(s, length) else s
  }

  lemma NextClusterFollowsLink(disk: Disk, fatStart: nat, stray: byte, c: nat)
    requires HoldsEntry(disk, fatStart, c) && !Straddles(c)
    ensures NextCluster(Drive(disk, {}), fatStart, stray, c) == Some(Entry(disk, fatStart, c))
  {
    hide Entry, DecodeNext;
    GetNextIsEntry(disk, fatStart, stray, c);
  }

  // ---------------------------------------------------------------- one cluster

  lemma SubtractOne(remaining: uint32)
    ensures Subtract(remaining) % SECTOR_SIZE == remaining % SECTOR_SIZE
    ensures remaining >= SECTOR_SIZE ==> Subtract(remaining) == remaining - SECTOR_SIZE
  {
    assert 0x1_0000_0000 == 0x80_0000 * SECTOR_SIZE;
    var q := (remaining - SECTOR_SIZE) / 0x1_0000_0000;
    assert q == 0 || q == -1;
  }

  lemma CutAppend(s: seq<byte>, t: seq<byte>, n: nat)
    requires |s| <= n
    ensures Cut(s + t, n) == s + Cut(t, n - |s|)
  {
  }

  /** A readable cluster: the whole extent, or as much as a whole-sector counter allows. */
  lemma {:induction false} ExtentIsTaken(disk: Disk, lba: nat, n: nat, remaining: uint32)
    requires lba + n <= |disk|
    ensures var p := CopySectors(Drive(disk, {}), lba, n, remaining);
            && p.complete && p.data == Taken(ExtentData(disk, lba, n), remaining)
            && p.remaining % SECTOR_SIZE == remaining % SECTOR_SIZE
            && (remaining % SECTOR_SIZE == 0 ==> p.remaining == remaining - |p.data|)
    decreases n
  {
    hide Subtract;
    if n > 0 && remaining > 0 {
      SubtractOne(remaining);
      ExtentIsTaken(disk, lba + 1, n - 1, Subtract(remaining));
      if remaining % SECTOR_SIZE == 0 {
        CutAppend(disk[lba], ExtentData(disk, lba + 1, n - 1), remaining);
      }
    }
  }

  // ---------------------------------------------------------------- the reader returns the chain's data

  lemma TakenAppend(s: seq<byte>, t: seq<byte>, length: uint32, rest: uint32)
    requires rest % SECTOR_SIZE == length % SECTOR_SIZE
    requires length % SECTOR_SIZE == 0 ==> rest == length - |Cut(s, length)|
    ensures Taken(s + t, length) == Taken(s, length) + Taken(t, rest)
  {
    if length % SECTOR_SIZE == 0 {
      if |s| <= length {
        CutAppend(s, t, length);
      } else {
        assert Cut(t, 0) == [];
      }
    }
  }

  /**
   On a readable disk, for a chain of clusters whose entries do not straddle, the loop ends and has stored
   the concatenation of the chain's sectors: cut at the length if that is whole sectors, all of it if not.
   */
  lemma {:induction false} ReaderReturnsChain(disk: Disk, g: Geometry, stray: byte, n: nat, cs: seq<nat>,
                                              length: uint32, fuel: nat)
    requires FileChain(disk, g, n, cs) && fuel >= |cs|
    ensures Exits(Drive(disk, {}), g, stray, cs[0], length, fuel)
    ensures CopyLoop(Drive(disk, {}), g, stray, cs[0], length, fuel) == Taken(ChainData(disk, g, cs), length)
    decreases |cs|
  {
    hide Entry, Straddles, LinksOf, ExtentData, ChainData, NextCluster, ClusterSector, CopySectors, Taken, Cut;
    var f := LinksOf(disk, g.fatStart, n);
    var c := cs[0];
    assert InUse(f, c);
    assert ExtentOnDisk(disk, g, c);
    NextClusterFollowsLink(disk, g.fatStart, stray, c);
    ChainDataUnfolds(disk, g, cs);
    var extent := ExtentData(disk, ClusterSector(g, c), g.sectorsPerCluster);
    NothingTaken(ChainData(disk, g, cs));
    if length > 0 {
      ExtentIsTaken(disk, ClusterSector(g, c), g.sectorsPerCluster, length);
      var p := CopySectors(Drive(disk, {}), ClusterSector(g, c), g.sectorsPerCluster, length);
      TakenIsCut(extent, length);
      TakenAppend(extent, ChainData(disk, g, cs[1..]), length, p.remaining);
      if |cs| == 1 {
        NoClustersNoData(disk, g);
        NothingToTake(p.remaining);
      } else {
        ChainTail(f, cs);
        assert forall i :: 0 <= i < |cs[1..]| ==> cs[1..][i] == cs[i + 1];
        ReaderReturnsChain(disk, g, stray, n, cs[1..], p.remaining, fuel - 1);
      }
    }
  }

  lemma NothingTaken(s: seq<byte>)
    ensures Taken(s, 0) == []
  {
  }

  lemma NothingToTake(length: uint32)
    ensures Taken([], length) == []
  {
  }

  lemma TakenIsCut(s: seq<byte>, length: uint32)
    ensures length % SECTOR_SIZE == 0 ==> Taken(s, length) == Cut(s, length)
  {
  }

  /**
   The exact condition under which the reader honours the length it is given: the length is a whole
   number of sectors, or the chain is no longer than it anyway.
   */
  lemma LengthIsHonouredIff(disk: Disk, g: Geometry, stray: byte, n: nat, cs: seq<nat>, length: uint32, fuel: nat)
    requires FileChain(disk, g, n, cs) && fuel >= |cs|
    ensures CopyLoop(Drive(disk, {}), g, stray, cs[0], length, fuel) == Cut(ChainData(disk, g, cs), length)
            <==> length % SECTOR_SIZE == 0 || |ChainData(disk, g, cs)| <= length
  {
    hide FileChain, ChainData, CopyLoop;
    ReaderReturnsChain(disk, g, stray, n, cs, length, fuel);
  }

  /** A file in the directory whose chain is sound is read in full, up to the limit if that is whole sectors. */
  lemma FoundFileIsRead(disk: Disk, g: Geometry, first: char8, maxSize: uint32, stray: byte, stale: Stale,
                        n: nat, cs: seq<nat>, fuel: nat)
    requires FileChain(disk, g, n, cs) && fuel >= |cs|
    ensures var d := Drive(disk, {});
            Scan(d, g, first, 0).Found? && cs[0] == Target(d, g, first, stale).0 ==>
              && ReadFits(d, g, true, first, maxSize, stray, stale, fuel, |ChainData(disk, g, cs)|)
              && FatRead(d, g, true, first, maxSize, stray, stale, fuel)
                 == Bytes(Taken(ChainData(disk, g, cs), Min(Target(d, g, first, stale).1, maxSize)))
  {
    hide Scan, LinksOf, Target, ExtentsOnDisk, Straddles, Entry, CopyLoop, Exits, ChainData;
    assert InUse(LinksOf(disk, g.fatStart, n), cs[0]);
    if Scan(Drive(disk, {}), g, first, 0).Found? {
      ReaderReturnsChain(disk, g, stray, n, cs, Min(Target(Drive(disk, {}), g, first, stale).1, maxSize), fuel);
    }
  }

  /** Slot k of the root directory, as raw bytes, is not an entry for a file whose name starts with the given byte. */
  predicate OtherEntry(disk: Disk, g: Geometry, k: nat, name: byte) {
    && g.rootStart + k / 16 < |disk|
    && var sec := disk[g.rootStart + k / 16];
       sec[32 * (k % 16)] != name || sec[32 * (k % 16) + 11] / 8 % 2 == 1 || sec[32 * (k % 16) + 11] / 16 % 2 == 1
  }

  lemma {:induction false} ScanReachesEntry(disk: Disk, g: Geometry, k: nat, i: nat, name: byte)
    requires i <= k < g.rootEntries && name < 0x80
    requires forall j: nat :: j < k ==> OtherEntry(disk, g, j, name)
    requires SlotMatches(Drive(disk, {}), g, name, k)
    ensures Scan(Drive(disk, {}), g, name, i) == Found(k)
    decreases k - i
  {
    hide OtherEntry, SlotMatches, SlotReadable;
    FoundIsReadable(disk, g, k, name);
    if i < k {
      OtherEntryIsPassed(disk, g, i, name);
      ScanReachesEntry(disk, g, k, i + 1, name);
    }
  }

  lemma FoundIsReadable(disk: Disk, g: Geometry, k: nat, name: char8)
    ensures SlotMatches(Drive(disk, {}), g, name, k) ==> SlotReadable(Drive(disk, {}), g, k)
  {
  }

  lemma OtherEntryIsPassed(disk: Disk, g: Geometry, i: nat, name: byte)
    requires name < 0x80 && OtherEntry(disk, g, i, name)
    ensures SlotReadable(Drive(disk, {}), g, i) && !SlotMatches(Drive(disk, {}), g, name, i)
  {
  }

  /**
   A whole call on the bytes of a drive: for the first directory entry with the name asked for, the stored
   cluster number says which chain is read, and the smaller of stored size and limit how much of it, if
   that is whole sectors.
   */
  lemma StoredFileIsRead(disk: Disk, g: Geometry, k: nat, name: byte, low: nat, high: nat, cluster: uint16,
                         size: uint32, maxSize: uint32, wanted: uint32, stray: byte, stale: Stale, n: nat,
                         cs: seq<nat>, fuel: nat)
    requires k < g.rootEntries && g.rootStart + k / 16 < |disk| && 0 < name < 0x80 && low < 8 && high < 8
    requires StoresEntry(disk[g.rootStart + k / 16], k % 16, name, Attributes(low, false, false, high), cluster, size)
    requires forall j: nat :: j < k ==> OtherEntry(disk, g, j, name)
    requires FileChain(disk, g, n, cs) && cs[0] == cluster && fuel >= |cs|
    requires wanted <= size && wanted <= maxSize && (wanted == size || wanted == maxSize)
    ensures var data := ChainData(disk, g, cs);
            FatRead(Drive(disk, {}), g, true, name, maxSize, stray, stale, fuel)
            == Bytes(if wanted % 512 == 0 && wanted <= |data| then data[..wanted] else data)
  {
    hide LinksOf, ChainData, CopyLoop, Exits, StoresEntry, Matches, SlotCluster, SlotSize, OtherEntry, FileChain;
    EntryDecodes(disk[g.rootStart + k / 16], k % 16, name, low, false, false, high, cluster, size, name);
    ScanReachesEntry(disk, g, k, 0, name);
    hide Scan;
    FoundFileIsRead(disk, g, name, maxSize, stray, stale, n, cs, fuel);
  }

  // ---------------------------------------------------------------- unreadable sectors

  lemma {:induction false} ExtentErrorsOnlyTruncate(d: Drive, lba: int, n: nat, remaining: uint32)
    ensures var r, all := CopySectors(d, lba, n, remaining), CopySectors(Drive(d.disk, {}), lba, n, remaining);
            r.data <= all.data && (r.complete ==> r == all)
    decreases n
  {
    if n > 0 && remaining > 0 && ReadSector(d, lba).Some? {
      ExtentErrorsOnlyTruncate(d, lba + 1, n - 1, Subtract(remaining));
    }
  }

  lemma NextClusterIfReadable(d: Drive, fatStart: nat, stray: byte, c: nat)
    ensures var next := NextCluster(d, fatStart, stray, c);
            next.Some? ==> NextCluster(Drive(d.disk, {}), fatStart, stray, c) == next
  {
  }

  /** Unreadable sectors only shorten what is stored, after any number of iterations. */
  lemma {:induction false} IoErrorsOnlyTruncate(d: Drive, g: Geometry, stray: byte, c: nat, length: uint32, fuel: nat)
    ensures CopyLoop(d, g, stray, c, length, fuel) <= CopyLoop(Drive(d.disk, {}), g, stray, c, length, fuel)
    decreases fuel
  {
    hide DecodeNext, CopySectors, ClusterSector, NextCluster, ReadSector;
    if fuel > 0 && length > 0 && c < END_OF_CHAIN {
      ExtentErrorsOnlyTruncate(d, ClusterSector(g, c), g.sectorsPerCluster, length);
      var p := CopySectors(d, ClusterSector(g, c), g.sectorsPerCluster, length);
      NextClusterIfReadable(d, g.fatStart, stray, c);
      if p.complete && NextCluster(d, g.fatStart, stray, c).Some? {
        IoErrorsOnlyTruncate(d, g, stray, NextCluster(d, g.fatStart, stray, c).value, p.remaining, fuel - 1);
      }
    }
  }

  /** The first m sectors from lba on can be read. */
  predicate Readable(d: Drive, lba: int, m: nat) {
    forall s: int :: lba <= s < lba + m ==> s !in d.bad
  }

  predicate FatReadable(d: Drive, g: Geometry, c: nat) {
    g.fatStart + c * 3 / 2 / SECTOR_SIZE !in d.bad
  }

  lemma {:induction false} ReadableExtentIsSame(d: Drive, lba: int, n: nat, remaining: uint32)
    requires Readable(d, lba, n)
    ensures CopySectors(d, lba, n, remaining) == CopySectors(Drive(d.disk, {}), lba, n, remaining)
    decreases n
  {
    hide Subtract;
    if n > 0 && remaining > 0 {
      ReadableExtentIsSame(d, lba + 1, n - 1, Subtract(remaining));
    }
  }

  /** A cluster whose sector j is the first that cannot be read: the sectors before it are stored, as far as wanted. */
  lemma {:induction false} ExtentStopsAtBadSector(d: Drive, lba: nat, n: nat, j: nat, remaining: uint32)
    requires lba + n <= |d.disk| && j < n && Readable(d, lba, j) && lba + j in d.bad
    ensures var p := CopySectors(d, lba, n, remaining);
            p.data == Taken(ExtentData(d.disk, lba, j), remaining) && (p.complete ==> p.remaining == 0)
    decreases j
  {
    hide Subtract;
    if j > 0 && remaining > 0 {
      assert lba !in d.bad;
      SubtractOne(remaining);
      ExtentStopsAtBadSector(d, lba + 1, n - 1, j - 1, Subtract(remaining));
      if remaining % SECTOR_SIZE == 0 {
        CutAppend(d.disk[lba], ExtentData(d.disk, lba + 1, j - 1), remaining);
      }
    }
  }

  lemma ChainsBeginAlike(disk: Disk, g: Geometry, cs: seq<nat>, m: nat)
    requires ExtentsOnDisk(disk, g, cs) && 0 < m <= |cs|
    ensures ExtentsOnDisk(disk, g, cs[..m]) && ExtentsOnDisk(disk, g, cs[1..])
    ensures ExtentsOnDisk(disk, g, cs[1..][..m - 1])
    ensures ChainData(disk, g, cs[..m])
         == ExtentData(disk, ClusterSector(g, cs[0]), g.sectorsPerCluster) + ChainData(disk, g, cs[1..][..m - 1])
  {
    hide ExtentData, ExtentOnDisk, ChainData;
    assert forall i :: 0 <= i < m ==> cs[..m][i] == cs[i];
    assert forall i :: 0 <= i < |cs[1..]| ==> cs[1..][i] == cs[i + 1];
    assert cs[..m][1..] == cs[1..][..m - 1];
    ChainDataUnfolds(disk, g, cs[..m]);
  }

  /** One iteration over a readable cluster with a readable link: its sectors, as far as wanted, then the rest. */
  lemma ReadableClusterStep(d: Drive, g: Geometry, stray: byte, n: nat, cs: seq<nat>, length: uint32, fuel: nat)
    requires FileChain(d.disk, g, n, cs) && |cs| > 1 && fuel > 0 && length > 0
    requires Readable(d, ClusterSector(g, cs[0]), g.sectorsPerCluster) && FatReadable(d, g, cs[0])
    ensures ExtentOnDisk(d.disk, g, cs[0]) && FileChain(d.disk, g, n, cs[1..])
    ensures var p := CopySectors(d, ClusterSector(g, cs[0]), g.sectorsPerCluster, length);
            var extent := ExtentData(d.disk, ClusterSector(g, cs[0]), g.sectorsPerCluster);
            && p.data == Taken(extent, length) && p.remaining % SECTOR_SIZE == length % SECTOR_SIZE
            && (length % SECTOR_SIZE == 0 ==> p.remaining == length - |Cut(extent, length)|)
            && CopyLoop(d, g, stray, cs[0], length, fuel)
               == p.data + CopyLoop(d, g, stray, cs[1], p.remaining, fuel - 1)
  {
    hide Entry, Straddles, LinksOf, ExtentData, ClusterSector, CopySectors, DecodeNext;
    var f, c := LinksOf(d.disk, g.fatStart, n), cs[0];
    assert InUse(f, c) && ExtentOnDisk(d.disk, g, c);
    ReadableExtentIsSame(d, ClusterSector(g, c), g.sectorsPerCluster, length);
    ExtentIsTaken(d.disk, ClusterSector(g, c), g.sectorsPerCluster, length);
    NextClusterFollowsLink(d.disk, g.fatStart, stray, c);
    ChainTail(f, cs);
    assert forall i :: 0 <= i < |cs[1..]| ==> cs[1..][i] == cs[i + 1];
  }

  /**
   Exactly how unreadable sectors shorten a read.  If sector j of cluster i of the chain is the first sector
   met that cannot be read, all sectors before it are stored, as far as the length goes.
   */
  lemma {:induction false} ReadStopsAtBadSector(d: Drive, g: Geometry, stray: byte, n: nat, cs: seq<nat>,
                                                i: nat, j: nat, length: uint32, fuel: nat)
    requires FileChain(d.disk, g, n, cs) && i < |cs| && j < g.sectorsPerCluster && fuel > i
    requires forall k :: 0 <= k < i ==>
               Readable(d, ClusterSector(g, cs[k]), g.sectorsPerCluster) && FatReadable(d, g, cs[k])
    requires Readable(d, ClusterSector(g, cs[i]), j) && ClusterSector(g, cs[i]) + j in d.bad
    ensures ExtentsOnDisk(d.disk, g, cs[..i]) && ExtentOnDisk(d.disk, g, cs[i])
    ensures CopyLoop(d, g, stray, cs[0], length, fuel)
         == Taken(ChainData(d.disk, g, cs[..i]) + ExtentData(d.disk, ClusterSector(g, cs[i]), j), length)
    decreases i
  {
    hide Entry, Straddles, LinksOf, ExtentData, ChainData, ClusterSector, Readable, FatReadable, Taken, Cut;
    hide CopySectors;
    assert ExtentOnDisk(d.disk, g, cs[i]);
    var part := ExtentData(d.disk, ClusterSector(g, cs[i]), j);
    if i == 0 {
      NoClustersNoData(d.disk, g);
      assert cs[..0] == [] && [] + part == part;
      BadClusterEnds(d, g, stray, cs[0], j, length, fuel);
    } else {
      ChainsBeginAlike(d.disk, g, cs, i);
      var extent := ExtentData(d.disk, ClusterSector(g, cs[0]), g.sectorsPerCluster);
      var rest := ChainData(d.disk, g, cs[1..][..i - 1]) + part;
      assert ChainData(d.disk, g, cs[..i]) + part == extent + rest;
      if length == 0 {
        NothingTaken(extent + rest);
      } else {
        ReadableClusterStep(d, g, stray, n, cs, length, fuel);
        var p := CopySectors(d, ClusterSector(g, cs[0]), g.sectorsPerCluster, length);
        assert forall k :: 0 <= k < |cs[1..]| ==> cs[1..][k] == cs[k + 1];
        ReadStopsAtBadSector(d, g, stray, n, cs[1..], i - 1, j, p.remaining, fuel - 1);
        TakenAppend(extent, rest, length, p.remaining);
      }
    }
  }

  lemma BadClusterEnds(d: Drive, g: Geometry, stray: byte, c: nat, j: nat, length: uint32, fuel: nat)
    requires ExtentOnDisk(d.disk, g, c) && c < END_OF_CHAIN && j < g.sectorsPerCluster && fuel > 0
    requires Readable(d, ClusterSector(g, c), j) && ClusterSector(g, c) + j in d.bad
    ensures CopyLoop(d, g, stray, c, length, fuel) == Taken(ExtentData(d.disk, ClusterSector(g, c), j), length)
  {
    hide ExtentData, ClusterSector, CopySectors, NextCluster, Taken;
    if length == 0 {
      NothingTaken(ExtentData(d.disk, ClusterSector(g, c), j));
    } else {
      ExtentStopsAtBadSector(d, ClusterSector(g, c), g.sectorsPerCluster, j, length);
    }
  }

  /** If the link of cluster i is the first thing that cannot be read, the data up to and with it is stored. */
  lemma {:induction false} ReadStopsAtBadLink(d: Drive, g: Geometry, stray: byte, n: nat, cs: seq<nat>, i: nat,
                                              length: uint32, fuel: nat)
    requires FileChain(d.disk, g, n, cs) && i < |cs| && fuel > i
    requires forall k :: 0 <= k <= i ==> Readable(d, ClusterSector(g, cs[k]), g.sectorsPerCluster)
    requires (forall k :: 0 <= k < i ==> FatReadable(d, g, cs[k])) && !FatReadable(d, g, cs[i])
    ensures ExtentsOnDisk(d.disk, g, cs[..i + 1])
    ensures CopyLoop(d, g, stray, cs[0], length, fuel) == Taken(ChainData(d.disk, g, cs[..i + 1]), length)
    decreases i
  {
    hide Entry, Straddles, LinksOf, ExtentData, ChainData, ClusterSector, Readable, FatReadable, Taken, Cut;
    hide CopySectors;
    ChainsBeginAlike(d.disk, g, cs, i + 1);
    var extent := ExtentData(d.disk, ClusterSector(g, cs[0]), g.sectorsPerCluster);
    var rest := ChainData(d.disk, g, cs[1..][..i]);
    if length == 0 {
      NothingTaken(extent + rest);
    } else if i == 0 {
      assert ExtentOnDisk(d.disk, g, cs[0]) && InUse(LinksOf(d.disk, g.fatStart, n), cs[0]);
      NoClustersNoData(d.disk, g);
      assert cs[1..][..0] == [] && extent + [] == extent;
      BadLinkEnds(d, g, stray, cs[0], length, fuel);
    } else {
      ReadableClusterStep(d, g, stray, n, cs, length, fuel);
      var p := CopySectors(d, ClusterSector(g, cs[0]), g.sectorsPerCluster, length);
      assert forall k :: 0 <= k < |cs[1..]| ==> cs[1..][k] == cs[k + 1];
      ReadStopsAtBadLink(d, g, stray, n, cs[1..], i - 1, p.remaining, fuel - 1);
      TakenAppend(extent, rest, length, p.remaining);
    }
  }

  lemma BadLinkEnds(d: Drive, g: Geometry, stray: byte, c: nat, length: uint32, fuel: nat)
    requires ExtentOnDisk(d.disk, g, c) && c < END_OF_CHAIN && fuel > 0 && length > 0
    requires Readable(d, ClusterSector(g, c), g.sectorsPerCluster) && !FatReadable(d, g, c)
    ensures CopyLoop(d, g, stray, c, length, fuel)
         == Taken(ExtentData(d.disk, ClusterSector(g, c), g.sectorsPerCluster), length)
  {
    hide ExtentData, ClusterSector, CopySectors, Taken, DecodeNext;
    ReadableExtentIsSame(d, ClusterSector(g, c), g.sectorsPerCluster, length);
    ExtentIsTaken(d.disk, ClusterSector(g, c), g.sectorsPerCluster, length);
    assert NextCluster(d, g.fatStart, stray, c) == None;
  }

  // ---------------------------------------------------------------- termination

  lemma {:induction false} WholePass(d: Drive, lba: int, n: nat, remaining: uint32)
    requires remaining % SECTOR_SIZE == 0
    ensures var p := CopySectors(d, lba, n, remaining);
            && p.remaining % SECTOR_SIZE == 0 && |p.data| + p.remaining == remaining
            && (n > 0 && remaining > 0 && p.complete ==> p.remaining < remaining)
    decreases n
  {
    hide ReadSector, Subtract;
    if n > 0 && remaining > 0 {
      SubtractOne(remaining);
      WholePass(d, lba + 1, n - 1, Subtract(remaining));
    }
  }

  /** For whole-sector lengths the counter never wraps: on any drive the walk ends and stays within the length. */
  lemma {:induction false} WholeLengthEnds(d: Drive, g: Geometry, stray: byte, c: nat, length: uint32, fuel: nat)
    requires g.sectorsPerCluster >= 1 && length % SECTOR_SIZE == 0
    ensures |CopyLoop(d, g, stray, c, length, fuel)| <= length
    ensures fuel >= length / SECTOR_SIZE ==> Exits(d, g, stray, c, length, fuel)
    decreases fuel
  {
    hide CopySectors, NextCluster, ClusterSector;
    if fuel > 0 && length > 0 && c < END_OF_CHAIN {
      WholePass(d, ClusterSector(g, c), g.sectorsPerCluster, length);
      var p := CopySectors(d, ClusterSector(g, c), g.sectorsPerCluster, length);
      if p.complete && NextCluster(d, g.fatStart, stray, c).Some? {
        WholeLengthEnds(d, g, stray, NextCluster(d, g.fatStart, stray, c).value, p.remaining, fuel - 1);
      }
    }
  }

  /** Links from the clusters of s stay in s or end, and the clusters can be read and decoded. */
  ghost predicate Closed(disk: Disk, g: Geometry, n: nat, s: set<nat>) {
    && 0 < n <= END_OF_CHAIN && HoldsEntry(disk, g.fatStart, n - 1)
    && var f := LinksOf(disk, g.fatStart, n);
    && forall c <- s :: InUse(f, c) && !Straddles(c) && ExtentOnDisk(disk, g, c) && (IsLast(f, c) || f[c] in s)
  }

  /** From a closed set a complete chain never leaves it, so it is the chain of a file. */
  lemma {:induction false} ChainStaysInSet(f: Links, s: set<nat>, cs: seq<nat>, i: nat)
    requires IsChain(f, cs) && cs[0] in s && i < |cs|
    requires forall c <- s :: InUse(f, c) && (IsLast(f, c) || f[c] in s)
    ensures cs[i] in s
    decreases i
  {
    if i > 0 {
      ChainStaysInSet(f, s, cs, i - 1);
      assert f[cs[i - 1]] == cs[i];
    }
  }

  lemma ClosedChainIsFile(disk: Disk, g: Geometry, n: nat, s: set<nat>, cs: seq<nat>)
    requires Closed(disk, g, n, s) && IsChain(LinksOf(disk, g.fatStart, n), cs) && cs[0] in s
    ensures FileChain(disk, g, n, cs)
  {
    hide LinksOf, Straddles, ExtentOnDisk, InUse;
    forall i | 0 <= i < |cs|
      ensures cs[i] in s
    {
      ChainStaysInSet(LinksOf(disk, g.fatStart, n), s, cs, i);
    }
  }

  /** If a walk with a fractional length ends, it has followed a complete chain. */
  lemma {:induction false} FractionalEndGivesChain(disk: Disk, g: Geometry, stray: byte, n: nat, s: set<nat>,
                                                   c: nat, length: uint32, fuel: nat) returns (cs: seq<nat>)
    requires Closed(disk, g, n, s) && c in s && length % SECTOR_SIZE != 0
    requires Exits(Drive(disk, {}), g, stray, c, length, fuel)
    ensures IsChain(LinksOf(disk, g.fatStart, n), cs) && cs[0] == c
    decreases fuel
  {
    hide Entry, Straddles, LinksOf, CopySectors, NextCluster, ClusterSector, ExtentData;
    var f := LinksOf(disk, g.fatStart, n);
    assert InUse(f, c) && ExtentOnDisk(disk, g, c);
    ExtentIsTaken(disk, ClusterSector(g, c), g.sectorsPerCluster, length);
    NextClusterFollowsLink(disk, g.fatStart, stray, c);
    if IsLast(f, c) {
      cs := [c];
    } else {
      var p := CopySectors(Drive(disk, {}), ClusterSector(g, c), g.sectorsPerCluster, length);
      var ds := FractionalEndGivesChain(disk, g, stray, n, s, f[c], p.remaining, fuel - 1);
      cs := [c] + ds;
      assert forall i :: 1 <= i < |cs| ==> cs[i] == ds[i - 1];
    }
  }

  /**
   The exact condition under which the walk ends: the length is whole sectors, or the first cluster heads
   a complete chain.
   */
  lemma WalkEndsIff(disk: Disk, g: Geometry, stray: byte, n: nat, s: set<nat>, c: nat, length: uint32)
    requires Closed(disk, g, n, s) && c in s && g.sectorsPerCluster >= 1
    ensures (exists fuel: nat :: Exits(Drive(disk, {}), g, stray, c, length, fuel))
            <==> length % SECTOR_SIZE == 0 || Heads(LinksOf(disk, g.fatStart, n), c)
  {
    hide LinksOf, Exits, FileChain, WellFormed, ExtentOnDisk, Straddles;
    var d := Drive(disk, {});
    if length % SECTOR_SIZE == 0 {
      WholeLengthEnds(d, g, stray, c, length, length / SECTOR_SIZE);
    } else if Heads(LinksOf(disk, g.fatStart, n), c) {
      var cs :| IsChain(LinksOf(disk, g.fatStart, n), cs) && cs[0] == c;
      ClosedChainIsFile(disk, g, n, s, cs);
      ReaderReturnsChain(disk, g, stray, n, cs, length, |cs|);
    } else if fuel: nat :| Exits(d, g, stray, c, length, fuel) {
      var cs := FractionalEndGivesChain(disk, g, stray, n, s, c, length, fuel);
    }
  }

  /** On a cluster linked to itself a fractional length never ends and stores the cluster over and over. */
  lemma {:induction false} SelfLinkNeverEnds(disk: Disk, g: Geometry, stray: byte, n: nat, c: nat,
                                             length: uint32, fuel: nat)
    requires Closed(disk, g, n, {c}) && LinksOf(disk, g.fatStart, n)[c] == c && length % SECTOR_SIZE != 0
    ensures !Exits(Drive(disk, {}), g, stray, c, length, fuel)
    ensures |CopyLoop(Drive(disk, {}), g, stray, c, length, fuel)| == fuel * (g.sectorsPerCluster * SECTOR_SIZE)
    decreases fuel
  {
    hide Entry, Straddles, LinksOf, CopySectors, NextCluster, ClusterSector, ExtentData;
    var f := LinksOf(disk, g.fatStart, n);
    assert InUse(f, c) && ExtentOnDisk(disk, g, c);
    ExtentIsTaken(disk, ClusterSector(g, c), g.sectorsPerCluster, length);
    NextClusterFollowsLink(disk, g.fatStart, stray, c);
    if fuel > 0 {
      var p := CopySectors(Drive(disk, {}), ClusterSector(g, c), g.sectorsPerCluster, length);
      SelfLinkNeverEnds(disk, g, stray, n, c, p.remaining, fuel - 1);
      OneMore(fuel, g.sectorsPerCluster * SECTOR_SIZE);
    }
  }

  lemma OneMore(fuel: nat, k: nat)
    requires fuel > 0
    ensures k + (fuel - 1) * k == fuel * k
  {
  }

  // ---------------------------------------------------------------- concrete disks

  /** A FAT sector whose only entry in use is cluster 2, with the given value. */
  function OneClusterFat(link: nat): Sector
    requires link < 0x1000
  {
    seq(SECTOR_SIZE, i requires 0 <= i < SECTOR_SIZE => if i == 3 then link % 256 else if i == 4 then link / 256 else 0)
  }

  lemma OneClusterLink(disk: Disk, fatStart: nat, link: nat)
    requires fatStart < |disk| && link < 0x1000 && disk[fatStart] == OneClusterFat(link)
    ensures HoldsEntry(disk, fatStart, 3) && !Straddles(2)
    ensures Entry(disk, fatStart, 2) == link && Entry(disk, fatStart, 3) == 0
    ensures LinksOf(disk, fatStart, 3)[2] == link
  {
    assert TableByte(disk, fatStart, 3) == link % 256 && TableByte(disk, fatStart, 4) == link / 256;
    assert TableByte(disk, fatStart, 5) == 0;
  }

  /** Cluster 2 linked to itself: asked for one byte of it, the reader never returns. */
  lemma OneByteOfSelfLinkNeverEnds(a: Sector, stray: byte, fuel: nat)
    ensures !Exits(Drive([OneClusterFat(2), a], {}), Geometry(0, 1, 1, SECTOR_SIZE, 1, 0), stray, 2, 1, fuel)
  {
    hide OneClusterFat, Entry, Straddles, LinksOf, Exits;
    var disk, g := [OneClusterFat(2), a], Geometry(0, 1, 1, SECTOR_SIZE, 1, 0);
    OneClusterLink(disk, 0, 2);
    assert Closed(disk, g, 3, {2});
    SelfLinkNeverEnds(disk, g, stray, 3, 2, 1, fuel);
  }

  /** Asked for one byte of a one-cluster file with two sectors per cluster, the reader stores both sectors. */
  lemma OneByteReadsTwoSectors(a: seq<byte>, b: seq<byte>, stray: byte)
    requires |a| == SECTOR_SIZE && |b| == SECTOR_SIZE
    ensures CopyLoop(Drive([OneClusterFat(0xFF8), a, b], {}), Geometry(0, 1, 1, SECTOR_SIZE, 2, 0), stray, 2, 1, 1)
         == a + b
  {
    hide OneClusterFat, Entry, Straddles, LinksOf, CopyLoop, Exits, ExtentData, ChainData;
    var disk: Disk, g := [OneClusterFat(0xFF8), a, b], Geometry(0, 1, 1, SECTOR_SIZE, 2, 0);
    OneClusterLink(disk, 0, 0xFF8);
    assert FileChain(disk, g, 3, [2]);
    ReaderReturnsChain(disk, g, stray, 3, [2], 1, 1);
    ChainDataUnfolds(disk, g, [2]);
    NoClustersNoData(disk, g);
    TwoSectorExtent(disk, a, b);
    assert [2][1..] == [];
  }

  lemma TwoSectorExtent(disk: Disk, a: seq<byte>, b: seq<byte>)
    requires |disk| == 3 && disk[1] == a && disk[2] == b
    ensures ExtentData(disk, 1, 2) == a + b
  {
    assert ExtentData(disk, 3, 0) == [];
    assert ExtentData(disk, 2, 1) == b;
  }
}
