/**
 The mounted volume of kernel/kernel.c: geometry from the boot sector, the FAT helpers working through
 a 512-byte buffer, and the save branch of the editor.
 */
module FatVolume {
  import opened Basics
  import opened FatTable

  // ---------------------------------------------------------------- geometry

  /** The sector numbers and sizes mount derives from the boot sector. */
  datatype Geometry = Geometry(fatStart: nat, rootStart: nat, dataStart: nat,
                               bytesPerSector: nat, sectorsPerCluster: nat, rootEntries: nat)

  predicate HasSignature(sec: Sector) {
    sec[54] == 0x46 && sec[55] == 0x41 && sec[56] == 0x54
  }

  function RootSize(rootEntries: nat, bytesPerSector: nat): nat
    requires bytesPerSector > 0
  {
    (rootEntries * 32 + bytesPerSector - 1) / bytesPerSector
  }

  lemma AtLeastOneFat(n: nat, k: nat)
    requires n >= 1
    ensures n * k >= k
  {
    assert n * k == k + (n - 1) * k;
  }

  function MountGeometry(sec: Sector): Geometry
    requires WordAt(sec, 11) > 0
  {
    var bytesPerSector := WordAt(sec, 11) as nat;
    var rootStart := WordAt(sec, 14) + (sec[16] as nat) * (WordAt(sec, 22) as nat);
    var rootSize := RootSize(WordAt(sec, 17), bytesPerSector);
    Geometry(WordAt(sec, 14), rootStart, rootStart + rootSize, bytesPerSector, sec[13], WordAt(sec, 17))
  }

  /** A FAT12 boot sector as mount expects it: sectors of 512 bytes, something reserved, at least one FAT. */
  predicate BootSector(sec: Sector) {
    && HasSignature(sec)
    && WordAt(sec, 11) == SECTOR_SIZE
    && WordAt(sec, 14) >= 1 && sec[16] >= 1 && WordAt(sec, 22) >= 1 && sec[13] >= 1
  }

  /** The first of the 512-byte sectors of cluster c; clusters 0 and 1 would lie before the data area. */
  function ClusterSector(g: Geometry, c: nat): (s: int)
    ensures c >= SCAN_START ==> s >= g.dataStart
  {
    g.dataStart + (c - 2) * g.sectorsPerCluster
  }

  predicate InExtent(g: Geometry, c: nat, s: nat) {
    ClusterSector(g, c) <= s < ClusterSector(g, c) + g.sectorsPerCluster
  }

  /** Boot sector, first FAT, further FATs, root directory and data area, in this order. */
  predicate LaidOut(g: Geometry, sectorsPerFat: nat) {
    && 1 <= g.fatStart < g.fatStart + sectorsPerFat <= g.rootStart <= g.dataStart
    && g.rootEntries * 32 <= (g.dataStart - g.rootStart) * SECTOR_SIZE
  }

  /** Boot sector, first FAT, further FATs, root directory and data area follow each other without overlap. */
  lemma MountLaysOutRegions(sec: Sector)
    requires BootSector(sec)
    ensures var g := MountGeometry(sec);
            var sectorsPerFat := WordAt(sec, 22);
            && LaidOut(g, sectorsPerFat)
            && g.rootStart == g.fatStart + sec[16] * sectorsPerFat
            && (g.dataStart - g.rootStart) * SECTOR_SIZE < g.rootEntries * 32 + SECTOR_SIZE
  {
    hide WordAt, RootSize;
    AtLeastOneFat(sec[16], WordAt(sec, 22));
    RootSizeRoundsUp(WordAt(sec, 17), SECTOR_SIZE);
  }

  /**
   Mounting decodes a boot sector: from the five numbers stored in it, least significant byte first, to
   where the regions start, how long the directory is and how large a cluster is.
   */
  lemma MountedGeometry(sec: Sector, bytesPerSector: uint16, reserved: uint16, fats: byte, entries: uint16,
                        sectorsPerFat: uint16, sectorsPerCluster: byte)
    requires Stores16(sec, 11, bytesPerSector) && bytesPerSector > 0 && Stores16(sec, 14, reserved) && sec[16] == fats
    requires Stores16(sec, 17, entries) && Stores16(sec, 22, sectorsPerFat) && sec[13] == sectorsPerCluster
    ensures WordAt(sec, 11) > 0
    ensures var g := MountGeometry(sec);
            && g.bytesPerSector == bytesPerSector && g.fatStart == reserved && g.rootEntries == entries
            && g.rootStart == reserved + fats * sectorsPerFat && g.sectorsPerCluster == sectorsPerCluster
            && var rootBytes := (g.dataStart - g.rootStart) * bytesPerSector;
               32 * entries <= rootBytes < 32 * entries + bytesPerSector
  {
    hide WordAt, RootSize;
    StoredWord(sec, 11, bytesPerSector);
    StoredWord(sec, 14, reserved);
    StoredWord(sec, 17, entries);
    StoredWord(sec, 22, sectorsPerFat);
    RootSizeRoundsUp(entries, bytesPerSector);
  }

  lemma StoredWord(sec: Sector, o: nat, v: uint16)
    requires o + 2 <= SECTOR_SIZE && Stores16(sec, o, v)
    ensures WordAt(sec, o) == v
  {
  }

  lemma RootSizeRoundsUp(entries: nat, bytesPerSector: nat)
    requires bytesPerSector > 0
    ensures 32 * entries <= RootSize(entries, bytesPerSector) * bytesPerSector < 32 * entries + bytesPerSector
  {
    var n := entries * 32 + bytesPerSector - 1;
    assert n == n / bytesPerSector * bytesPerSector + n % bytesPerSector;
  }

  /** The signature is the text FAT. */
  lemma SignatureIs(sec: Sector)
    ensures HasSignature(sec) <==> sec[54..57] == ['F' as int, 'A' as int, 'T' as int]
  {
  }

  /** A 1.44 MB floppy: FATs from sector 1, directory from sector 19, data from sector 33, cluster 3 in sector 34. */
  lemma FloppyGeometry(sec: Sector)
    requires Stores16(sec, 11, 512) && Stores16(sec, 14, 1) && sec[16] == 2 && Stores16(sec, 17, 224)
    requires Stores16(sec, 22, 9) && sec[13] == 1
    ensures WordAt(sec, 11) > 0 && MountGeometry(sec) == Geometry(1, 19, 33, 512, 1, 224)
    ensures ClusterSector(MountGeometry(sec), 3) == 34
  {
    MountedGeometry(sec, 512, 1, 2, 224, 9, 1);
  }

  /** Cluster 2 is the first of the data area, and each cluster follows the one before it. */
  lemma ClustersAreConsecutive(g: Geometry, c: nat)
    ensures ClusterSector(g, 2) == g.dataStart
    ensures ClusterSector(g, c + 1) == ClusterSector(g, c) + g.sectorsPerCluster
  {
    assert (c + 1 - 2) * g.sectorsPerCluster == (c - 2) * g.sectorsPerCluster + g.sectorsPerCluster;
  }

  lemma ExtentsAreDisjoint(g: Geometry, c: nat, d: nat, s: nat)
    requires SCAN_START <= c && SCAN_START <= d && c != d
    ensures !(InExtent(g, c, s) && InExtent(g, d, s))
  {
    if c < d {
      ExtentsInOrder(g, c, d);
    } else {
      ExtentsInOrder(g, d, c);
    }
  }

  lemma ExtentsInOrder(g: Geometry, c: nat, d: nat)
    requires SCAN_START <= c < d
    ensures ClusterSector(g, c) + g.sectorsPerCluster <= ClusterSector(g, d)
  {
    MultiplesAreSpaced(c - 2, d - 2, g.sectorsPerCluster);
  }

  lemma {:induction false} MultiplesAreSpaced(i: nat, j: nat, k: nat)
    requires i < j
    ensures i * k + k <= j * k
    decreases j
  {
    assert j * k == (j - 1) * k + k;
    if i < j - 1 {
      MultiplesAreSpaced(i, j - 1, k);
    }
  }

  // ---------------------------------------------------------------- save

  /** The 512 bytes written: the start of the edit buffer, zero-filled. */
  function SavedSector(text: seq<byte>, pos: nat): (s: Sector)
    requires |text| >= SECTOR_SIZE
    ensures forall i :: 0 <= i < SECTOR_SIZE ==> s[i] == if i < pos then text[i] else 0
  {
    seq(SECTOR_SIZE, i requires 0 <= i < SECTOR_SIZE => if i < pos then text[i] else 0)
  }

  /** What the editor saves, and the bytes that happen to lie behind the two FAT buffers at that moment. */
  datatype Text = Text(bytes: seq<byte>, pos: nat, strayRead: byte, strayWrite: byte)

  /** There is a sector of text, the table is on the disk, and so is the sector to write if there is one. */
  predicate Saveable(disk: Disk, g: Geometry, t: Text) {
    && |t.bytes| >= SECTOR_SIZE && ScanOnDisk(disk, g.fatStart)
    && var c := TakenCluster(disk, g.fatStart, t.strayRead);
       c != 0 ==> ClusterSector(g, c) < |disk|
  }

  /** The save branch of edit as coded: allocate a cluster, then write its first sector, unless it is 0. */
  function SaveAsCoded(disk: Disk, g: Geometry, t: Text): (d: Disk)
    requires Saveable(disk, g, t)
    ensures |d| == |disk|
  {
    var (after, c) := AllocAsCoded(disk, g.fatStart, t.strayRead, t.strayWrite);
    if c == 0 then after else after[ClusterSector(g, c) := SavedSector(t.bytes, t.pos)]
  }

  /** The same with the allocation as it is meant to be. */
  function Save(disk: Disk, g: Geometry, t: Text): Disk
    requires |t.bytes| >= SECTOR_SIZE && ScanOnDisk(disk, g.fatStart)
    requires var c := AllocCluster(disk, g.fatStart).1; c != 0 ==> ClusterSector(g, c) < |disk|
  {
    var (after, c) := AllocCluster(disk, g.fatStart);
    if c == 0 then after else after[ClusterSector(g, c) := SavedSector(t.bytes, t.pos)]
  }

  /** A save, whatever lies behind the buffers, is the intended one exactly on safe tables. */
  lemma SaveIsAsIntendedIff(disk: Disk, g: Geometry, sectorsPerFat: nat, bytes: seq<byte>, pos: nat)
    requires LaidOut(g, sectorsPerFat)
    requires forall r: byte, w: byte :: Saveable(disk, g, Text(bytes, pos, r, w))
    ensures var c := AllocCluster(disk, g.fatStart).1; c != 0 ==> ClusterSector(g, c) < |disk|
    ensures (forall r: byte, w: byte ::
               SaveAsCoded(disk, g, Text(bytes, pos, r, w)) == Save(disk, g, Text(bytes, pos, r, w)))
            <==> AllocSafe(disk, g.fatStart)
  {
    hide AllocAsCoded, AllocCluster, TakenCluster, SavedSector, ClusterSector, StraddlerNibble, Entry;
    assert Saveable(disk, g, Text(bytes, pos, 1, 0)) && Saveable(disk, g, Text(bytes, pos, 0, 0));
    TakenClusterCases(disk, g.fatStart, 1);
    if AllocSafe(disk, g.fatStart) {
      AllocIsAsIntendedIff(disk, g.fatStart);
    } else {
      var t := Text(bytes, pos, 0, 0);
      TakenClusterCases(disk, g.fatStart, 0);
      SaveKeepsStraddlerNibble(disk, g, sectorsPerFat, t);
      IntendedSaveKeepsNibble(disk, g, sectorsPerFat, t);
    }
  }

  lemma IntendedSaveKeepsNibble(disk: Disk, g: Geometry, sectorsPerFat: nat, t: Text)
    requires LaidOut(g, sectorsPerFat) && |t.bytes| >= SECTOR_SIZE && ScanOnDisk(disk, g.fatStart)
    requires var c := AllocCluster(disk, g.fatStart).1; c != 0 ==> ClusterSector(g, c) < |disk|
    ensures |Save(disk, g, t)| == |disk|
    ensures StraddlerNibble(Save(disk, g, t), g.fatStart) == StraddlerNibble(disk, g.fatStart)
  {
    hide AllocCluster, SavedSector, SetNext, Entry, StraddlerNibble, ClusterSector;
    var (after, c) := AllocCluster(disk, g.fatStart);
    if c != 0 {
      ClusterBehindFat(g, sectorsPerFat, c);
      SameSectorSameNibble(after, Save(disk, g, t), g.fatStart);
      AllocClusterTakesLeastFree(disk, g.fatStart);
      AllocClusterIsSetNext(disk, g.fatStart);
      SetNextUpdatesOneEntry(disk, g.fatStart, c, END_OF_CHAIN, STRADDLER);
      StraddlerNibbleIsLow(disk, g.fatStart);
      StraddlerNibbleIsLow(after, g.fatStart);
    }
  }

  lemma AllocClusterIsSetNext(disk: Disk, fatStart: nat)
    requires ScanOnDisk(disk, fatStart)
    ensures var (after, c) := AllocCluster(disk, fatStart);
            c != 0 ==>
              HoldsEntry(disk, fatStart, c) && !Straddles(c) && after == SetNext(disk, fatStart, c, END_OF_CHAIN)
  {
    hide SetNext, Entry, Straddles;
    AllocClusterTakesLeastFree(disk, fatStart);
  }

  lemma ClusterBehindFat(g: Geometry, sectorsPerFat: nat, c: nat)
    requires LaidOut(g, sectorsPerFat) && c >= SCAN_START
    ensures ClusterSector(g, c) >= g.dataStart >= g.rootStart >= g.fatStart + sectorsPerFat > g.fatStart
  {
  }

  lemma SameSectorSameNibble(disk: Disk, after: Disk, fatStart: nat)
    requires |after| == |disk| && ScanOnDisk(disk, fatStart) && after[fatStart] == disk[fatStart]
    ensures StraddlerNibble(after, fatStart) == StraddlerNibble(disk, fatStart)
  {
  }

  /** Entries that lie wholly in the first FAT. */
  predicate InFirstFat(sectorsPerFat: nat, c: nat) {
    c * 3 / 2 + 2 <= sectorsPerFat * SECTOR_SIZE
  }

  /** Entries depend only on the sectors of the first FAT. */
  lemma SameFatSameEntry(disk: Disk, after: Disk, fatStart: nat, sectorsPerFat: nat, c: nat)
    requires |after| == |disk| && HoldsEntry(disk, fatStart, c) && InFirstFat(sectorsPerFat, c)
    requires forall s: nat :: fatStart <= s < fatStart + sectorsPerFat && s < |disk| ==> after[s] == disk[s]
    ensures Entry(after, fatStart, c) == Entry(disk, fatStart, c)
  {
    var o := c * 3 / 2;
    assert o / SECTOR_SIZE < sectorsPerFat && (o + 1) / SECTOR_SIZE < sectorsPerFat;
  }

  /** A save marks the entry of the cluster it takes and changes no other entry of the first FAT, for every table. */
  lemma SaveUpdatesOneEntry(disk: Disk, g: Geometry, sectorsPerFat: nat, t: Text, d: nat)
    requires LaidOut(g, sectorsPerFat) && Saveable(disk, g, t)
    requires InFirstFat(sectorsPerFat, d) && HoldsEntry(disk, g.fatStart, d)
    ensures var c := TakenCluster(disk, g.fatStart, t.strayRead);
            Entry(SaveAsCoded(disk, g, t), g.fatStart, d)
            == if d == c && c != 0 then MarkedEntry(c, Entry(disk, g.fatStart, d)) else Entry(disk, g.fatStart, d)
  {
    hide Entry, AllocAsCoded, TakenCluster, SavedSector, ClusterSector, MarkedEntry;
    var (after, c) := AllocAsCoded(disk, g.fatStart, t.strayRead, t.strayWrite);
    AllocUpdatesOneEntry(disk, g.fatStart, t.strayRead, t.strayWrite, d);
    if c != 0 {
      ClusterBehindFat(g, sectorsPerFat, c);
      SameFatSameEntry(after, SaveAsCoded(disk, g, t), g.fatStart, sectorsPerFat, d);
    }
  }

  /** The one nibble of entry 341 that is looked at becomes 8 if that cluster is taken, and otherwise stays. */
  lemma SaveKeepsStraddlerNibble(disk: Disk, g: Geometry, sectorsPerFat: nat, t: Text)
    requires LaidOut(g, sectorsPerFat) && Saveable(disk, g, t)
    ensures StraddlerNibble(SaveAsCoded(disk, g, t), g.fatStart)
         == if TakenCluster(disk, g.fatStart, t.strayRead) == STRADDLER then 8 else StraddlerNibble(disk, g.fatStart)
  {
    hide Entry, AllocAsCoded, TakenCluster, SavedSector, ClusterSector, StraddlerNibble, MarkedEntry;
    var (after, c) := AllocAsCoded(disk, g.fatStart, t.strayRead, t.strayWrite);
    if c != 0 {
      ClusterBehindFat(g, sectorsPerFat, c);
      SameSectorSameNibble(after, SaveAsCoded(disk, g, t), g.fatStart);
    }
    AllocUpdatesOneEntry(disk, g.fatStart, t.strayRead, t.strayWrite, STRADDLER);
    StraddlerNibbleIsLow(disk, g.fatStart);
    StraddlerNibbleIsLow(after, g.fatStart);
    LowNibbleOfMark(Entry(disk, g.fatStart, STRADDLER));
  }

  /** The sector that is written for the entry of cluster c. */
  function EntrySector(g: Geometry, c: nat): nat {
    g.fatStart + c * 3 / 2 / SECTOR_SIZE
  }

  /**
   Sector by sector: the data goes to the first sector of the new cluster; apart from it only the sector
   of its entry may change.
   */
  lemma SaveTouchesTwoSectors(disk: Disk, g: Geometry, t: Text, s: nat)
    requires Saveable(disk, g, t) && s < |disk|
    ensures var after, c := SaveAsCoded(disk, g, t), TakenCluster(disk, g.fatStart, t.strayRead);
            if c == 0 then after == disk
            else && after[ClusterSector(g, c)] == SavedSector(t.bytes, t.pos)
                 && (after[s] != disk[s] ==> s == EntrySector(g, c) || s == ClusterSector(g, c))
  {
    hide TakenCluster, SavedSector, ClusterSector;
  }

  /** Byte by byte: the start of the text up to the cursor, then zeros, in the first sector of the cluster taken. */
  lemma SaveWritesText(disk: Disk, g: Geometry, t: Text, i: nat)
    requires Saveable(disk, g, t) && i < 512
    ensures var c := TakenCluster(disk, g.fatStart, t.strayRead);
            c != 0 ==>
              && 0 <= g.dataStart + (c - 2) * g.sectorsPerCluster < |disk|
              && SaveAsCoded(disk, g, t)[g.dataStart + (c - 2) * g.sectorsPerCluster][i]
                 == if i < t.pos then t.bytes[i] else 0
  {
    hide TakenCluster, AllocAsCoded;
  }

  /** A FAT of two sectors holds every entry the allocation scans; in one sector only those below 341 are whole. */
  ghost predicate FirstFatSuffices(disk: Disk, g: Geometry, sectorsPerFat: nat)
    requires ScanOnDisk(disk, g.fatStart)
  {
    sectorsPerFat >= 2 || FreeBelowStraddle(disk, g.fatStart) || !HasFree(disk, g.fatStart)
  }

  /**
   The boot sector, further FATs and the root directory are out of a save's reach, whatever lies behind
   the buffers, exactly if the first FAT has two sectors, a cluster below 341 is free, or none is free.
   */
  lemma SaveStaysInFirstFatIff(disk: Disk, g: Geometry, sectorsPerFat: nat)
    requires LaidOut(g, sectorsPerFat) && ScanOnDisk(disk, g.fatStart)
    ensures (forall r: byte :: var c := TakenCluster(disk, g.fatStart, r);
                               c != 0 ==> g.fatStart <= EntrySector(g, c) < g.fatStart + sectorsPerFat)
            <==> FirstFatSuffices(disk, g, sectorsPerFat)
  {
    hide Entry, TakenCluster, StraddlerNibble;
    if FirstFatSuffices(disk, g, sectorsPerFat) {
      forall r: byte
        ensures var c := TakenCluster(disk, g.fatStart, r);
                c != 0 ==> g.fatStart <= EntrySector(g, c) < g.fatStart + sectorsPerFat
      {
        TakenEntryInFirstFat(disk, g, sectorsPerFat, r);
      }
    } else {
      TakenClusterIsLeast(disk, g.fatStart, 1);
      TakenAtStraddler(disk, g.fatStart, 1);
      var c := TakenCluster(disk, g.fatStart, 1);
      assert c > STRADDLER;
    }
  }

  lemma TakenEntryInFirstFat(disk: Disk, g: Geometry, sectorsPerFat: nat, stray: byte)
    requires LaidOut(g, sectorsPerFat) && ScanOnDisk(disk, g.fatStart) && FirstFatSuffices(disk, g, sectorsPerFat)
    ensures var c := TakenCluster(disk, g.fatStart, stray);
            && (sectorsPerFat >= 2 || c <= STRADDLER)
            && (c != 0 ==> g.fatStart <= EntrySector(g, c) < g.fatStart + sectorsPerFat)
            && (forall d: nat :: d <= c && d != STRADDLER ==> InFirstFat(sectorsPerFat, d))
  {
    hide Entry, TakenCluster, LooksFree;
    TakenClusterIsLeast(disk, g.fatStart, stray);
  }

  /** A one-sector FAT whose 341 entries are in use: the save marks an entry in the sector behind the FAT. */
  lemma OneSectorFatSpills(boot: Sector, stray: byte)
    ensures var disk := [boot] + [FilledSector(0xFF)] + seq(400, _ => FilledSector(0));
            var g := Geometry(1, 2, 3, SECTOR_SIZE, 1, 16);
            && LaidOut(g, 1) && ScanOnDisk(disk, 1) && AllocSafe(disk, 1)
            && TakenCluster(disk, 1, stray) == 342 && EntrySector(g, 342) == 2 == g.rootStart
  {
    hide TakenCluster, Entry, StraddlerNibble;
    var disk: Disk := [boot] + [FilledSector(0xFF)] + seq(400, _ => FilledSector(0));
    forall d: nat | d <= 341
      ensures Entry(disk, 1, d) != 0 && Entry(disk, 1, d) % 16 != 0
    {
      SpilledEntry(disk, d);
    }
    SpilledEntry(disk, 342);
    StraddlerNibbleIsLow(disk, 1);
    TakenClusterIsLeast(disk, 1, stray);
    TakenAtStraddler(disk, 1, stray);
  }

  function FilledSector(b: byte): Sector {
    seq(SECTOR_SIZE, _ => b)
  }

  lemma SpilledEntry(disk: Disk, d: nat)
    requires |disk| > 3 && disk[1] == FilledSector(0xFF) && disk[2] == FilledSector(0) && d <= 342
    ensures HoldsEntry(disk, 1, d)
    ensures Entry(disk, 1, d) == if d < 341 then 0xFFF else if d == 341 then 15 else 0
  {
    var o := d * 3 / 2;
    assert TableByte(disk, 1, o) == if o < 512 then 0xFF else 0;
    assert TableByte(disk, 1, o + 1) == if o + 1 < 512 then 0xFF else 0;
  }

  lemma SectorInOwnExtent(g: Geometry, c: nat)
    requires c >= SCAN_START && g.sectorsPerCluster >= 1
    ensures InExtent(g, c, ClusterSector(g, c))
  {
  }

  /** The sector a save writes is the first one of the cluster it takes and lies in no other cluster's extent. */
  lemma SaveTargetIsOwned(disk: Disk, g: Geometry, t: Text, d: nat)
    requires Saveable(disk, g, t) && d >= SCAN_START && g.sectorsPerCluster >= 1
    ensures var c := TakenCluster(disk, g.fatStart, t.strayRead);
            c != 0 ==> (InExtent(g, d, ClusterSector(g, c)) <==> d == c)
  {
    hide TakenCluster, ClusterSector;
    var c := TakenCluster(disk, g.fatStart, t.strayRead);
    if c != 0 {
      SectorInOwnExtent(g, c);
      if d != c {
        ExtentsAreDisjoint(g, c, d, ClusterSector(g, c));
      }
    }
  }

  /** What is in use stays in use, and what a save takes is in use afterwards. */
  lemma SaveKeepsUsed(disk: Disk, g: Geometry, sectorsPerFat: nat, t: Text, d: nat)
    requires LaidOut(g, sectorsPerFat) && Saveable(disk, g, t)
    requires InFirstFat(sectorsPerFat, d) && HoldsEntry(disk, g.fatStart, d)
    requires d >= SCAN_START
    requires Entry(disk, g.fatStart, d) != 0 || d == TakenCluster(disk, g.fatStart, t.strayRead)
    ensures Entry(SaveAsCoded(disk, g, t), g.fatStart, d) != 0
  {
    hide Entry, SaveAsCoded, TakenCluster;
    SaveUpdatesOneEntry(disk, g, sectorsPerFat, t, d);
  }

  /** Saves take increasing clusters, unless 341 is passed over at first and looks free later. */
  lemma SavesUseLaterClusters(disk: Disk, g: Geometry, sectorsPerFat: nat, t: Text, strayNext: byte)
    requires LaidOut(g, sectorsPerFat) && Saveable(disk, g, t) && FirstFatSuffices(disk, g, sectorsPerFat)
    ensures var c := TakenCluster(disk, g.fatStart, t.strayRead);
            var next := TakenCluster(SaveAsCoded(disk, g, t), g.fatStart, strayNext);
            c != 0 && next != 0 ==> next > c || (next == STRADDLER && t.strayRead != 0 == strayNext)
  {
    hide Entry, SaveAsCoded, TakenCluster, FirstFatSuffices, StraddlerNibble;
    var after := SaveAsCoded(disk, g, t);
    var c, next := TakenCluster(disk, g.fatStart, t.strayRead), TakenCluster(after, g.fatStart, strayNext);
    TakenEntryInFirstFat(disk, g, sectorsPerFat, t.strayRead);
    TakenClusterIsLeast(disk, g.fatStart, t.strayRead);
    TakenClusterIsLeast(after, g.fatStart, strayNext);
    if 0 < next <= c {
      if next == STRADDLER {
        TakenAtStraddler(after, g.fatStart, strayNext);
        SaveKeepsStraddlerNibble(disk, g, sectorsPerFat, t);
      } else {
        SaveKeepsUsed(disk, g, sectorsPerFat, t, next);
      }
    }
  }

  // ---------------------------------------------------------------- the code

  /** The FAT state of kernel.c and the disk behind the ATA port. */
  class Volume {
    const disk: array<Sector>
    var mounted: bool
    var fatSector: nat
    var rootSector: nat
    var dataSector: nat
    var bytesPerSector: nat
    var sectorsPerCluster: nat
    var rootEntries: nat

    /** The static initial values. */
    constructor (disk: array<Sector>)
      ensures this.disk == disk && !mounted && Layout() == Geometry(0, 0, 0, 512, 1, 0)
    {
      this.disk := disk;
      mounted := false;
      fatSector, rootSector, dataSector := 0, 0, 0;
      bytesPerSector, sectorsPerCluster, rootEntries := 512, 1, 0;
    }

    function Layout(): Geometry
      reads this
    {
      Geometry(fatSector, rootSector, dataSector, bytesPerSector, sectorsPerCluster, rootEntries)
    }

    method AtaRead(lba: nat, buf: array<byte>)
      requires lba < disk.Length && buf.Length == SECTOR_SIZE
      modifies buf
      ensures buf[..] == disk[lba]
    {
      var i := 0;
      while i < SECTOR_SIZE
        invariant 0 <= i <= SECTOR_SIZE
        invariant buf[..i] == disk[lba][..i]
      {
        buf[i] := disk[lba][i];
        i := i + 1;
      }
    }

    method AtaWrite(lba: nat, buf: array<byte>)
      requires lba < disk.Length && buf.Length == SECTOR_SIZE
      modifies disk
      ensures disk[..] == old(disk[..])[lba := buf[..]]
    {
      disk[lba] := buf[..];
    }

    /** mount; a boot sector with zero bytes per sector makes it divide by zero. */
    method Mount()
      requires disk.Length > 0
      requires HasSignature(disk[0]) ==> WordAt(disk[0], 11) > 0
      modifies this
      ensures if HasSignature(disk[0]) then mounted && Layout() == MountGeometry(disk[0])
              else mounted == old(mounted) && Layout() == old(Layout())
    {
      var sec := new byte[SECTOR_SIZE];
      AtaRead(0, sec);
      if sec[54] == 0x46 && sec[55] == 0x41 && sec[56] == 0x54 {
        var reserved := sec[14] as nat + 256 * (sec[15] as nat);
        var fatCount := sec[16] as nat;
        rootEntries := sec[17] as nat + 256 * (sec[18] as nat);
        var sectorsPerFat := sec[22] as nat + 256 * (sec[23] as nat);
        bytesPerSector := sec[11] as nat + 256 * (sec[12] as nat);
        sectorsPerCluster := sec[13];
        fatSector := reserved;
        var rootStart := fatSector + fatCount * sectorsPerFat;
        assert bytesPerSector == WordAt(disk[0], 11);
        var rootSize := (rootEntries * 32 + bytesPerSector - 1) / bytesPerSector;
        rootSector := rootStart;
        dataSector := rootStart + rootSize;
        mounted := true;
      }
    }

    /** fat_get_next_cluster; stray is the byte behind its buffer on the stack. */
    method GetNextCluster(cluster: uint16, stray: byte) returns (next: uint16)
      requires bytesPerSector == SECTOR_SIZE && Holds(disk[..], fatSector, cluster * 3 / 2 + 1)
      ensures next == GetNext(disk[..], fatSector, stray, cluster)
    {
      var fatOffset := cluster * 3 / 2;
      var fatSec := fatSector + fatOffset / bytesPerSector;
      var fatOff := fatOffset % bytesPerSector;
      var buf := new byte[SECTOR_SIZE];
      AtaRead(fatSec, buf);
      var word := WordAt(buf[..] + [stray], fatOff);
      if cluster % 2 == 1 {
        return word / 16 % 0x1000;
      } else {
        return word % 0x1000;
      }
    }

    /** fat_set_next_cluster, for 12-bit values; stray is the byte behind its buffer on the stack. */
    method SetNextCluster(cluster: uint16, next: uint16, stray: byte)
      requires bytesPerSector == SECTOR_SIZE && next < 0x1000 && Holds(disk[..], fatSector, cluster * 3 / 2 + 1)
      modifies disk
      ensures disk[..] == StoreNext(old(disk[..]), fatSector, stray, cluster, next)
    {
      var fatOffset := cluster * 3 / 2;
      var fatSec := fatSector + fatOffset / bytesPerSector;
      var fatOff := fatOffset % bytesPerSector;
      var buf := new byte[SECTOR_SIZE];
      AtaRead(fatSec, buf);
      ghost var mem := buf[..] + [stray];
      var word := WordAt(buf[..] + [stray], fatOff);
      if cluster % 2 == 1 {
        word := word % 16 + next * 16;
      } else {
        word := word / 0x1000 * 0x1000 + next;
      }
      buf[fatOff] := word % 256;
      if fatOff + 1 < SECTOR_SIZE {
        buf[fatOff + 1] := word / 256;
      }
      assert buf[..] == PutWord(mem, fatOff, word)[..SECTOR_SIZE];
      AtaWrite(fatSec, buf);
    }

    /** fat_alloc_cluster */
    method Allocate(strayRead: byte, strayWrite: byte) returns (cluster: uint16)
      requires bytesPerSector == SECTOR_SIZE && ScanOnDisk(disk[..], fatSector)
      modifies disk
      ensures (disk[..], cluster) == AllocAsCoded(old(disk[..]), fatSector, strayRead, strayWrite)
    {
      hide GetNext, StoreNext;
      ghost var before := disk[..];
      var i := 2;
      while i < 512
        invariant 2 <= i <= 512 && disk[..] == before
        invariant ScanFrom(before, fatSector, strayRead, SCAN_START) == ScanFrom(before, fatSector, strayRead, i)
      {
        var next := GetNextCluster(i, strayRead);
        if next == 0 {
          SetNextCluster(i, 0xFF8, strayWrite);
          return i;
        }
        i := i + 1;
      }
      return 0;
    }

    /** The zero-filled sector image the save branch builds from the edit buffer. */
    method SectorImage(text: seq<byte>, pos: nat) returns (data: array<byte>)
      requires |text| == 4096
      ensures fresh(data) && data.Length == SECTOR_SIZE && data[..] == SavedSector(text, pos)
    {
      data := new byte[SECTOR_SIZE];
      var i := 0;
      while i < 512
        invariant 0 <= i <= 512
        invariant forall k :: 0 <= k < i ==> data[k] == 0
      {
        data[i] := 0;
        i := i + 1;
      }
      i := 0;
      while i < pos && i < 512
        invariant 0 <= i <= 512 && i <= pos
        invariant forall k :: 0 <= k < 512 ==> data[k] == if k < i then text[k] else 0
      {
        data[i] := text[i];
        i := i + 1;
      }
    }

    /** The save branch of edit; t.bytes is the 4096-byte edit buffer. */
    method SaveText(t: Text)
      requires |t.bytes| == 4096
      requires mounted ==> bytesPerSector == SECTOR_SIZE && Saveable(disk[..], Layout(), t)
      modifies disk
      ensures disk[..] == if mounted then SaveAsCoded(old(disk[..]), Layout(), t) else old(disk[..])
    {
      hide AllocAsCoded, TakenCluster, SavedSector;
      if mounted {
        var cluster := Allocate(t.strayRead, t.strayWrite);
        if cluster != 0 {
          var data := SectorImage(t.bytes, t.pos);
          var sector := dataSector + (cluster - 2) * sectorsPerCluster;
          AtaWrite(sector, data);
        }
      }
    }
  }
}
