/**
 The file reader of kernel/fs/fat.c: a root directory scan, then a walk of the cluster chain that copies
 whole sectors while a 32-bit counter is not zero.  A drive may have unreadable sectors.  The reader
 decodes FAT entries out of a static 512-byte buffer; the byte that follows that buffer in memory is the
 parameter stray, read (only) when an entry straddles two sectors.
 */
module FatReader {
  import opened Basics
  import opened FatTable
  import opened FatVolume

  datatype Drive = Drive(disk: Disk, bad: set<nat>)

  /** ata_read_sector: sector numbers that wrapped below zero lie beyond every disk. */
  function ReadSector(d: Drive, lba: int): Option<Sector> {
    if 0 <= lba < |d.disk| && lba !in d.bad then Some(d.disk[lba]) else None
  }

  // ---------------------------------------------------------------- directory scan

  const ENTRY_SIZE: nat := 32
  const ENTRIES_PER_SECTOR: nat := 16

  function SlotByte(sec: Sector, slot: nat, o: nat): byte
    requires slot < ENTRIES_PER_SECTOR && o < ENTRY_SIZE
  {
    sec[slot * ENTRY_SIZE + o]
  }

  /** In use, neither a volume label nor a directory. */
  predicate IsFile(sec: Sector, slot: nat)
    requires slot < ENTRIES_PER_SECTOR
  {
    && SlotByte(sec, slot, 0) != 0 && SlotByte(sec, slot, 0) != 0xE5
    && SlotByte(sec, slot, 11) / 8 % 2 == 0 && SlotByte(sec, slot, 11) / 16 % 2 == 0
  }

  /** A file whose first character, an unsigned byte, equals the signed one that is asked for. */
  predicate Matches(sec: Sector, slot: nat, first: char8)
    requires slot < ENTRIES_PER_SECTOR
  {
    IsFile(sec, slot) && SlotByte(sec, slot, 0) == first
  }

  /** The character whose byte is b. */
  function Signed(b: byte): char8 {
    if b < 0x80 then b else b - 0x100
  }

  /** A file is found under its own first character, or under any at all, exactly if that is below 0x80. */
  lemma OwnNameMatchesIff(sec: Sector, slot: nat)
    requires slot < ENTRIES_PER_SECTOR && IsFile(sec, slot)
    ensures Matches(sec, slot, Signed(SlotByte(sec, slot, 0))) <==> SlotByte(sec, slot, 0) < 0x80
    ensures (exists first: char8 :: Matches(sec, slot, first)) <==> SlotByte(sec, slot, 0) < 0x80
  {
    if SlotByte(sec, slot, 0) < 0x80 {
      assert Matches(sec, slot, Signed(SlotByte(sec, slot, 0)));
    }
  }

  function SlotCluster(sec: Sector, slot: nat): uint16
    requires slot < ENTRIES_PER_SECTOR
  {
    SlotByte(sec, slot, 26) as nat + 256 * (SlotByte(sec, slot, 27) as nat)
  }

  function SlotSize(sec: Sector, slot: nat): uint32
    requires slot < ENTRIES_PER_SECTOR
  {
    SlotByte(sec, slot, 28) as nat + 0x100 * (SlotByte(sec, slot, 29) as nat)
    + 0x1_0000 * (SlotByte(sec, slot, 30) as nat) + 0x100_0000 * (SlotByte(sec, slot, 31) as nat)
  }

  predicate SlotReadable(d: Drive, g: Geometry, k: nat) {
    ReadSector(d, g.rootStart + k / ENTRIES_PER_SECTOR).Some?
  }

  predicate SlotMatches(d: Drive, g: Geometry, first: char8, k: nat) {
    SlotReadable(d, g, k)
    && Matches(ReadSector(d, g.rootStart + k / ENTRIES_PER_SECTOR).value, k % ENTRIES_PER_SECTOR, first)
  }

  // ---------------------------------------------------------------- stored entries

  /** The attribute byte with the given volume-label bit 0x08, directory bit 0x10, and other bits. */
  function Attributes(low: nat, volume: bool, directory: bool, high: nat): byte
    requires low < 8 && high < 8
  {
    low + (if volume then 0x08 else 0) + (if directory then 0x10 else 0) + 0x20 * high
  }

  /** Slot k of a directory sector holds an entry: name at 0, attributes at 11, first cluster at 26, size at 28. */
  predicate StoresEntry(sec: Sector, k: nat, name: byte, attributes: byte, cluster: uint16, size: uint32)
    requires k < 16
  {
    && sec[32 * k] == name && sec[32 * k + 11] == attributes
    && Stores16(sec, 32 * k + 26, cluster) && Stores32(sec, 32 * k + 28, size)
  }

  /** What the reader decodes is what is stored; it takes an entry in use that is neither label nor directory. */
  lemma EntryDecodes(sec: Sector, k: nat, name: byte, low: nat, volume: bool, directory: bool, high: nat,
                     cluster: uint16, size: uint32, first: char8)
    requires k < 16 && low < 8 && high < 8
    requires StoresEntry(sec, k, name, Attributes(low, volume, directory, high), cluster, size)
    ensures SlotCluster(sec, k) == cluster && SlotSize(sec, k) == size
    ensures Matches(sec, k, first) <==> name != 0 && name != 0xE5 && !volume && !directory && first == name
  {
    assert size / 0x1_0000 == size / 0x100 / 0x100 && size / 0x100_0000 == size / 0x100 / 0x100 / 0x100;
    AttributeBits(low, volume, directory, high);
  }

  lemma AttributeBits(low: nat, volume: bool, directory: bool, high: nat)
    requires low < 8 && high < 8
    ensures var a := Attributes(low, volume, directory, high);
            (a / 8 % 2 == 1 <==> volume) && (a / 16 % 2 == 1 <==> directory)
  {
    var a, v, d := Attributes(low, volume, directory, high), if volume then 1 else 0, if directory then 1 else 0;
    assert a == low + 8 * (v + 2 * (d + 2 * high));
    assert a / 8 == v + 2 * (d + 2 * high) && a / 16 == a / 8 / 2;
  }

  /** Such a sector exists for every entry: the stores of a directory writer. */
  function PutEntry(sec: Sector, k: nat, name: byte, attributes: byte, cluster: uint16, size: uint32): (r: Sector)
    requires k < 16
    ensures StoresEntry(r, k, name, attributes, cluster, size)
    ensures forall i :: 0 <= i < SECTOR_SIZE && i / 32 != k ==> r[i] == sec[i]
  {
    sec[32 * k := name][32 * k + 11 := attributes]
       [32 * k + 26 := cluster % 256][32 * k + 27 := cluster / 256]
       [32 * k + 28 := size % 256][32 * k + 29 := size / 0x100 % 256]
       [32 * k + 30 := size / 0x1_0000 % 256][32 * k + 31 := size / 0x100_0000]
  }

  // ---------------------------------------------------------------- the scan

  datatype Lookup = Unreadable | Found(slot: nat) | Missing

  /** The directory scan from slot k on: the first matching slot, unless an unreadable sector comes first. */
  function Scan(d: Drive, g: Geometry, first: char8, k: nat): (r: Lookup)
    ensures r.Found? ==> k <= r.slot < g.rootEntries && SlotMatches(d, g, first, r.slot)
                         && forall j: nat :: k <= j < r.slot ==> SlotReadable(d, g, j) && !SlotMatches(d, g, first, j)
    ensures r.Missing? ==>
              forall j: nat :: k <= j < g.rootEntries ==> SlotReadable(d, g, j) && !SlotMatches(d, g, first, j)
    ensures r.Unreadable? ==> exists j: nat :: k <= j < g.rootEntries && !SlotReadable(d, g, j)
    decreases g.rootEntries - k
  {
    if k >= g.rootEntries then Missing
    else if !SlotReadable(d, g, k) then Unreadable
    else if SlotMatches(d, g, first, k) then Found(k)
    else Scan(d, g, first, k + 1)
  }

  /** Without unreadable sectors the scan finds a file exactly when some slot matches. */
  lemma ScanFindsIff(d: Drive, g: Geometry, first: char8)
    requires forall k: nat :: k < g.rootEntries ==> SlotReadable(d, g, k)
    ensures Scan(d, g, first, 0).Found? <==> exists k: nat :: k < g.rootEntries && SlotMatches(d, g, first, k)
  {
  }

  // ---------------------------------------------------------------- chain walk

  /** The FAT lookup at the end of an iteration. */
  function NextCluster(d: Drive, fatStart: nat, stray: byte, c: nat): Option<nat> {
    var o := c * 3 / 2;
    match ReadSector(d, fatStart + o / SECTOR_SIZE)
    case None => None
    case Some(buf) => Some(DecodeNext(buf, stray, o % SECTOR_SIZE, c % 2 == 1))
  }

  /** The inner loop's result: the bytes stored, the counter, and whether no read failed. */
  datatype Pass = Pass(data: seq<byte>, remaining: uint32, complete: bool)

  /** The unsigned subtraction, which wraps. */
  function Subtract(remaining: uint32): uint32 {
    (remaining - SECTOR_SIZE) % 0x1_0000_0000
  }

  /** The inner loop: up to n sectors from lba on, while the counter is not zero. */
  function CopySectors(d: Drive, lba: int, n: nat, remaining: uint32): Pass
    decreases n
  {
    if n == 0 || remaining == 0 then Pass([], remaining, true) else
    match ReadSector(d, lba)
    case None => Pass([], remaining, false)
    case Some(sec) =>
      var rest := CopySectors(d, lba + 1, n - 1, Subtract(remaining));
      rest.(data := sec + rest.data)
  }

  /** What the outer loop stores in its first fuel iterations. */
  function CopyLoop(d: Drive, g: Geometry, stray: byte, c: nat, remaining: uint32, fuel: nat): seq<byte>
    decreases fuel
  {
    if fuel == 0 || remaining == 0 || c >= END_OF_CHAIN then [] else
    var p := CopySectors(d, ClusterSector(g, c), g.sectorsPerCluster, remaining);
    if !p.complete then p.data else
    match NextCluster(d, g.fatStart, stray, c)
    case None => p.data
    case Some(next) => p.data + CopyLoop(d, g, stray, next, p.remaining, fuel - 1)
  }

  /** The outer loop is left within fuel iterations. */
  predicate Exits(d: Drive, g: Geometry, stray: byte, c: nat, remaining: uint32, fuel: nat)
    decreases fuel
  {
    remaining == 0 || c >= END_OF_CHAIN ||
    (fuel > 0 &&
     var p := CopySectors(d, ClusterSector(g, c), g.sectorsPerCluster, remaining);
     !p.complete ||
     match NextCluster(d, g.fatStart, stray, c)
     case None => true
     case Some(next) => Exits(d, g, stray, next, p.remaining, fuel - 1))
  }

  /** Once the loop is left, further fuel changes nothing. */
  lemma {:induction false} FuelIsEnough(d: Drive, g: Geometry, stray: byte, c: nat, remaining: uint32,
                                        fuel: nat, more: nat)
    requires Exits(d, g, stray, c, remaining, fuel) && fuel <= more
    ensures Exits(d, g, stray, c, remaining, more)
    ensures CopyLoop(d, g, stray, c, remaining, more) == CopyLoop(d, g, stray, c, remaining, fuel)
    decreases fuel
  {
    hide CopySectors, NextCluster, ClusterSector;
    if remaining > 0 && c < END_OF_CHAIN {
      var p := CopySectors(d, ClusterSector(g, c), g.sectorsPerCluster, remaining);
      if p.complete && NextCluster(d, g.fatStart, stray, c).Some? {
        FuelIsEnough(d, g, stray, NextCluster(d, g.fatStart, stray, c).value, p.remaining, fuel - 1, more - 1);
      }
    }
  }

  lemma LoopStep(d: Drive, g: Geometry, stray: byte, c: nat, remaining: uint32, fuel: nat)
    requires Exits(d, g, stray, c, remaining, fuel) && remaining > 0 && c < END_OF_CHAIN
    ensures fuel > 0
    ensures var p := CopySectors(d, ClusterSector(g, c), g.sectorsPerCluster, remaining);
            var next := NextCluster(d, g.fatStart, stray, c);
            if !p.complete || next.None? then CopyLoop(d, g, stray, c, remaining, fuel) == p.data
            else && Exits(d, g, stray, next.value, p.remaining, fuel - 1)
                 && CopyLoop(d, g, stray, c, remaining, fuel)
                    == p.data + CopyLoop(d, g, stray, next.value, p.remaining, fuel - 1)
  {
  }

  lemma LoopEnd(d: Drive, g: Geometry, stray: byte, c: nat, remaining: uint32, fuel: nat)
    requires remaining == 0 || c >= END_OF_CHAIN
    ensures CopyLoop(d, g, stray, c, remaining, fuel) == []
  {
  }

  // ---------------------------------------------------------------- the whole call

  datatype Outcome = Error(code: int) | Bytes(data: seq<byte>)

  /** The locals cluster and entry->size as they are before the scan assigns them. */
  datatype Stale = Stale(cluster: uint16, size: uint32)

  function SlotSector(d: Drive, g: Geometry, k: nat): Sector
    requires SlotReadable(d, g, k)
  {
    ReadSector(d, g.rootStart + k / ENTRIES_PER_SECTOR).value
  }

  /** The first cluster and size fat_read goes by: without a match the cluster is stale, the size the last slot's. */
  function Target(d: Drive, g: Geometry, first: char8, stale: Stale): (r: (uint16, uint32))
    requires !Scan(d, g, first, 0).Unreadable?
  {
    match Scan(d, g, first, 0)
    case Found(k) =>
      (SlotCluster(SlotSector(d, g, k), k % ENTRIES_PER_SECTOR), SlotSize(SlotSector(d, g, k), k % ENTRIES_PER_SECTOR))
    case Missing =>
      if g.rootEntries == 0 then (stale.cluster, stale.size) else
      var k := g.rootEntries - 1;
      (stale.cluster, SlotSize(SlotSector(d, g, k), k % ENTRIES_PER_SECTOR))
  }

  function Min(a: uint32, b: uint32): uint32 {
    if a > b then b else a
  }

  /** fat_read, followed for fuel clusters. */
  function FatRead(d: Drive, g: Geometry, mounted: bool, first: char8, maxSize: uint32,
                   stray: byte, stale: Stale, fuel: nat): Outcome
  {
    if !mounted || Scan(d, g, first, 0).Unreadable? then Error(-1) else
    var (cluster, size) := Target(d, g, first, stale);
    if cluster == 0 then Error(-2) else
    Bytes(CopyLoop(d, g, stray, cluster, Min(size, maxSize), fuel))
  }

  /** The chain walk of the call, if there is one, is left within fuel clusters and stores at most capacity bytes. */
  predicate ReadFits(d: Drive, g: Geometry, mounted: bool, first: char8, maxSize: uint32,
                     stray: byte, stale: Stale, fuel: nat, capacity: nat)
  {
    mounted && !Scan(d, g, first, 0).Unreadable? ==>
      var (cluster, size) := Target(d, g, first, stale);
      cluster != 0 ==>
        && Exits(d, g, stray, cluster, Min(size, maxSize), fuel)
        && |CopyLoop(d, g, stray, cluster, Min(size, maxSize), fuel)| <= capacity
  }

  /** -2, meant to say "not found", is the result for a present file without clusters, and for an absent one by luck. */
  lemma NotFoundIsReportedIff(d: Drive, g: Geometry, mounted: bool, first: char8, maxSize: uint32,
                              stray: byte, stale: Stale, fuel: nat)
    ensures FatRead(d, g, mounted, first, maxSize, stray, stale, fuel) == Error(-2)
            <==> mounted && match Scan(d, g, first, 0)
                            case Unreadable => false
                            case Found(k) => SlotCluster(SlotSector(d, g, k), k % ENTRIES_PER_SECTOR) == 0
                            case Missing => stale.cluster == 0
  {
  }

  /** -1 is returned exactly if nothing is mounted or the directory cannot be read far enough; other errors are -2. */
  lemma ReadErrorIff(d: Drive, g: Geometry, mounted: bool, first: char8, maxSize: uint32,
                     stray: byte, stale: Stale, fuel: nat)
    ensures var r := FatRead(d, g, mounted, first, maxSize, stray, stale, fuel);
            && (r == Error(-1) <==>
                !mounted || exists j: nat :: j < g.rootEntries && !SlotReadable(d, g, j)
                                             && forall i: nat :: i < j ==> !SlotMatches(d, g, first, i))
            && (r.Error? ==> r.code == -1 || r.code == -2)
  {
    hide CopyLoop, SlotCluster, SlotSize, Matches, ReadSector;
    ScanFailsIff(d, g, first, 0);
  }

  lemma {:induction false} ScanFailsIff(d: Drive, g: Geometry, first: char8, k: nat)
    ensures Scan(d, g, first, k).Unreadable? <==>
            exists j: nat :: k <= j < g.rootEntries && !SlotReadable(d, g, j)
                             && forall i: nat :: k <= i < j ==> !SlotMatches(d, g, first, i)
    decreases g.rootEntries - k
  {
    hide Matches, ReadSector;
    if k < g.rootEntries && SlotReadable(d, g, k) && !SlotMatches(d, g, first, k) {
      ScanFailsIff(d, g, first, k + 1);
    }
  }

  /** The result is determined by the drive exactly if nothing is mounted, a file is found, or the scan fails. */
  lemma ResultIsDeterminedIff(d: Drive, g: Geometry, mounted: bool, first: char8, maxSize: uint32,
                              stray: byte, fuel: nat)
    ensures (forall s: Stale, t: Stale ::
               FatRead(d, g, mounted, first, maxSize, stray, s, fuel)
               == FatRead(d, g, mounted, first, maxSize, stray, t, fuel))
            <==> !mounted || !Scan(d, g, first, 0).Missing?
  {
    hide Scan, CopyLoop, SlotSize, SlotCluster;
    if mounted && Scan(d, g, first, 0).Missing? {
      assert FatRead(d, g, mounted, first, maxSize, stray, Stale(0, 0), fuel) == Error(-2);
      assert FatRead(d, g, mounted, first, maxSize, stray, Stale(1, 0), fuel).Bytes?;
    }
  }

  /** -2 can be relied on exactly for a file that is present and has no clusters. */
  lemma NotFoundIsReliableIff(d: Drive, g: Geometry, mounted: bool, first: char8, maxSize: uint32,
                              stray: byte, fuel: nat)
    ensures (forall s: Stale :: FatRead(d, g, mounted, first, maxSize, stray, s, fuel) == Error(-2))
            <==> mounted && Scan(d, g, first, 0).Found?
                 && var k := Scan(d, g, first, 0).slot; SlotCluster(SlotSector(d, g, k), k % ENTRIES_PER_SECTOR) == 0
  {
    hide FatRead, Scan, CopyLoop, SlotCluster;
    NotFoundIsReportedIff(d, g, mounted, first, maxSize, stray, Stale(0, 0), fuel);
    NotFoundIsReportedIff(d, g, mounted, first, maxSize, stray, Stale(1, 0), fuel);
    forall s: Stale
      ensures FatRead(d, g, mounted, first, maxSize, stray, s, fuel) == Error(-2)
              <==> mounted && match Scan(d, g, first, 0)
                              case Unreadable => false
                              case Found(k) => SlotCluster(SlotSector(d, g, k), k % ENTRIES_PER_SECTOR) == 0
                              case Missing => s.cluster == 0
    {
      NotFoundIsReportedIff(d, g, mounted, first, maxSize, stray, s, fuel);
    }
  }

  // ---------------------------------------------------------------- two concrete directories

  /** A directory sector with one entry in its last slot: the given first character and cluster, size 512. */
  function OneFileDirectory(name: byte, cluster: byte): Sector {
    seq(SECTOR_SIZE, i requires 0 <= i < SECTOR_SIZE =>
      if i == 480 then name else if i == 506 then cluster else if i == 509 then 2 else 0)
  }

  lemma OneFileSlots(dir: Sector, name: byte, cluster: byte, first: char8)
    requires dir == OneFileDirectory(name, cluster)
    ensures forall k: nat :: k < 15 ==> !Matches(dir, k, first)
    ensures Matches(dir, 15, first) <==> first == name && name != 0 && name != 0xE5
    ensures SlotCluster(dir, 15) == cluster && SlotSize(dir, 15) == 512
  {
  }

  lemma {:induction false} OneFileScan(d: Drive, g: Geometry, name: byte, cluster: byte, first: char8, k: nat)
    requires g.rootEntries == 16 && k <= 15
    requires ReadSector(d, g.rootStart) == Some(OneFileDirectory(name, cluster))
    ensures Scan(d, g, first, k) == if first == name && name != 0 && name != 0xE5 then Found(15) else Missing
    decreases 15 - k
  {
    hide Matches, OneFileDirectory, ReadSector;
    var dir := ReadSector(d, g.rootStart).value;
    OneFileSlots(dir, name, cluster, first);
    assert k / ENTRIES_PER_SECTOR == 0 && k % ENTRIES_PER_SECTOR == k;
    if k < 15 {
      OneFileScan(d, g, name, cluster, first, k + 1);
    } else {
      assert Scan(d, g, first, 16) == Missing;
    }
  }

  /** A file whose name starts with byte 0xC4 is not found under that character. */
  lemma HighNameIsNotFound(fat: Sector, data: Sector)
    ensures var d, g := Drive([fat, OneFileDirectory(0xC4, 2), data], {}), Geometry(0, 1, 2, SECTOR_SIZE, 1, 16);
            Scan(d, g, Signed(0xC4), 0) == Missing
  {
    hide OneFileDirectory;
    var d, g := Drive([fat, OneFileDirectory(0xC4, 2), data], {}), Geometry(0, 1, 2, SECTOR_SIZE, 1, 16);
    OneFileScan(d, g, 0xC4, 2, Signed(0xC4), 0);
  }

  /** File B is on the disk and A is asked for: with a stale cluster number 2 the call returns B's sector. */
  lemma AbsentFileReadsAnother(fat: Sector, data: Sector, stray: byte)
    ensures var d := Drive([fat, OneFileDirectory(0x42, 2), data], {});
            var g := Geometry(0, 1, 2, SECTOR_SIZE, 1, 16);
            && Scan(d, g, 0x41, 0) == Missing
            && FatRead(d, g, true, 0x41, 512, stray, Stale(2, 0), 1) == Bytes(data)
  {
    hide Scan, SlotSize, Matches, OneFileDirectory, DecodeNext, SlotCluster;
    var d := Drive([fat, OneFileDirectory(0x42, 2), data], {});
    var g := Geometry(0, 1, 2, SECTOR_SIZE, 1, 16);
    OneFileSlots(d.disk[1], 0x42, 2, 0x41);
    OneFileScan(d, g, 0x42, 2, 0x41, 0);
    assert ReadSector(d, g.rootStart + 15 / ENTRIES_PER_SECTOR) == Some(d.disk[1]);
    assert Target(d, g, 0x41, Stale(2, 0)) == (2, 512);
    OneSectorLoop(d, g, stray, data);
  }

  lemma OneSectorLoop(d: Drive, g: Geometry, stray: byte, data: Sector)
    requires g.fatStart == 0 && g.dataStart == 2 && g.sectorsPerCluster == 1
    requires |d.disk| == 3 && d.bad == {} && d.disk[2] == data
    ensures CopyLoop(d, g, stray, 2, 512, 1) == data
  {
    hide DecodeNext;
    assert ClusterSector(g, 2) == 2;
    assert Subtract(512) == 0;
    assert CopySectors(d, 3, 0, 0) == Pass([], 0, true);
    assert CopySectors(d, 2, 1, 512) == Pass(data + [], 0, true);
    assert data + [] == data;
  }

  /** File A is on the disk without clusters: it is reported as not found. */
  lemma EmptyFileIsReportedMissing(fat: Sector, data: Sector, stray: byte, stale: Stale, fuel: nat)
    ensures var d := Drive([fat, OneFileDirectory(0x41, 0), data], {});
            var g := Geometry(0, 1, 2, SECTOR_SIZE, 1, 16);
            && Scan(d, g, 0x41, 0) == Found(15)
            && FatRead(d, g, true, 0x41, 512, stray, stale, fuel) == Error(-2)
  {
    hide Scan, SlotSize, Matches, OneFileDirectory, DecodeNext, SlotCluster, CopyLoop;
    var d := Drive([fat, OneFileDirectory(0x41, 0), data], {});
    var g := Geometry(0, 1, 2, SECTOR_SIZE, 1, 16);
    OneFileSlots(d.disk[1], 0x41, 0, 0x41);
    OneFileScan(d, g, 0x41, 0, 0x41, 0);
    assert SlotSector(d, g, 15) == d.disk[1];
  }

  // ---------------------------------------------------------------- the code

  /** The buffer with data written over it from offset at on. */
  function Patched(buffer: seq<byte>, at: nat, data: seq<byte>): (r: seq<byte>)
    requires at + |data| <= |buffer|
    ensures |r| == |buffer|
  {
    buffer[..at] + data + buffer[at + |data|..]
  }

  lemma PatchAppend(buffer: seq<byte>, at: nat, s: seq<byte>, t: seq<byte>)
    requires at + |s| + |t| <= |buffer|
    ensures Patched(Patched(buffer, at, s), at + |s|, t) == Patched(buffer, at, s + t)
  {
  }

  lemma PatchNothing(buffer: seq<byte>, at: nat)
    requires at <= |buffer|
    ensures Patched(buffer, at, []) == buffer
  {
  }

  /** What the inner loop stores is data followed by what it has yet to store. */
  ghost predicate Splits(all: Pass, data: seq<byte>, rest: Pass) {
    all.complete == rest.complete && all.remaining == rest.remaining && all.data == data + rest.data
  }

  lemma SplitsStart(all: Pass)
    ensures Splits(all, [], all)
  {
  }

  /** One iteration of the inner loop moves one sector from the rest to the data. */
  lemma SplitsStep(all: Pass, data: seq<byte>, d: Drive, lba: int, n: nat, remaining: uint32)
    requires n > 0 && remaining > 0 && Splits(all, data, CopySectors(d, lba, n, remaining))
    ensures match ReadSector(d, lba)
            case None => all == Pass(data, remaining, false)
            case Some(sec) =>
              && Splits(all, data + sec, CopySectors(d, lba + 1, n - 1, Subtract(remaining)))
              && |data| + SECTOR_SIZE <= |all.data|
  {
  }

  lemma SplitsEnd(all: Pass, data: seq<byte>, d: Drive, lba: int, n: nat, remaining: uint32)
    requires (n == 0 || remaining == 0) && Splits(all, data, CopySectors(d, lba, n, remaining))
    ensures all == Pass(data, remaining, true)
  {
  }

  /** One iteration of the directory loop at slot i. */
  lemma ScanStep(d: Drive, g: Geometry, first: char8, stale: Stale, i: nat)
    requires i < g.rootEntries && Scan(d, g, first, 0) == Scan(d, g, first, i)
    ensures if !SlotReadable(d, g, i) then Scan(d, g, first, 0).Unreadable?
            else if Matches(SlotSector(d, g, i), i % ENTRIES_PER_SECTOR, first)
            then && !Scan(d, g, first, 0).Unreadable?
                 && Target(d, g, first, stale) == (SlotCluster(SlotSector(d, g, i), i % ENTRIES_PER_SECTOR),
                                                   SlotSize(SlotSector(d, g, i), i % ENTRIES_PER_SECTOR))
            else Scan(d, g, first, 0) == Scan(d, g, first, i + 1)
  {
  }

  lemma ScanEnd(d: Drive, g: Geometry, first: char8, stale: Stale)
    requires Scan(d, g, first, 0) == Scan(d, g, first, g.rootEntries)
    ensures Scan(d, g, first, 0).Missing?
    ensures Target(d, g, first, stale).0 == stale.cluster
    ensures g.rootEntries == 0 ==> Target(d, g, first, stale).1 == stale.size
    ensures g.rootEntries > 0 ==>
              var k := g.rootEntries - 1;
              && SlotReadable(d, g, k)
              && Target(d, g, first, stale).1 == SlotSize(SlotSector(d, g, k), k % ENTRIES_PER_SECTOR)
  {
  }

  /** Sixteen slots share a sector. */
  lemma SameSectorAsBefore(d: Drive, g: Geometry, i: nat)
    requires i % ENTRIES_PER_SECTOR != 0 && SlotReadable(d, g, i - 1)
    ensures SlotReadable(d, g, i) && SlotSector(d, g, i) == SlotSector(d, g, i - 1)
  {
    assert i / ENTRIES_PER_SECTOR == (i - 1) / ENTRIES_PER_SECTOR;
  }

  /** The static state of fat.c: the sector buffer, here with the byte that follows it in memory. */
  class Reader {
    const sectorBuffer: array<byte>

    ghost predicate Valid() {
      sectorBuffer.Length == SECTOR_SIZE + 1
    }

    constructor (sectorBuffer: array<byte>)
      requires sectorBuffer.Length == SECTOR_SIZE + 1
      ensures Valid() && this.sectorBuffer == sectorBuffer
    {
      this.sectorBuffer := sectorBuffer;
    }

    /** ata_read_sector into buf from offset at on; a failed read transfers nothing. */
    method AtaReadSector(d: Drive, lba: int, buf: array<byte>, at: nat) returns (failed: bool)
      requires ReadSector(d, lba).Some? ==> at + SECTOR_SIZE <= buf.Length
      modifies buf
      ensures failed <==> ReadSector(d, lba).None?
      ensures failed ==> buf[..] == old(buf[..])
      ensures !failed ==> buf[..] == Patched(old(buf[..]), at, ReadSector(d, lba).value)
    {
      match ReadSector(d, lba)
      case None => return true;
      case Some(sec) =>
        var i := 0;
        while i < SECTOR_SIZE
          invariant 0 <= i <= SECTOR_SIZE
          invariant forall k :: 0 <= k < buf.Length ==>
                      buf[k] == if at <= k < at + i then sec[k - at] else old(buf[k])
        {
          buf[at + i] := sec[i];
          i := i + 1;
        }
        return false;
    }

    /** Fill the sector buffer; the byte behind it stays. */
    method LoadBuffer(d: Drive, lba: int) returns (failed: bool)
      requires Valid()
      modifies sectorBuffer
      ensures sectorBuffer[SECTOR_SIZE] == old(sectorBuffer[SECTOR_SIZE])
      ensures failed <==> ReadSector(d, lba).None?
      ensures !failed ==> sectorBuffer[..SECTOR_SIZE] == ReadSector(d, lba).value
    {
      failed := AtaReadSector(d, lba, sectorBuffer, 0);
    }

    /** The directory scan of fat_read: also the size field of the slot its entry pointer ends on. */
    method FindEntry(d: Drive, g: Geometry, first: char8, stale: Stale)
      returns (failed: bool, cluster: uint16, size: uint32)
      requires Valid()
      modifies sectorBuffer
      ensures sectorBuffer[SECTOR_SIZE] == old(sectorBuffer[SECTOR_SIZE])
      ensures failed <==> Scan(d, g, first, 0).Unreadable?
      ensures !failed ==> (cluster, size) == Target(d, g, first, stale)
    {
      hide Matches, SlotCluster, SlotSize, Scan, Target, ReadSector;
      cluster, size := stale.cluster, stale.size;
      failed := false;
      var i := 0;
      while i < g.rootEntries
        invariant 0 <= i <= g.rootEntries
        invariant sectorBuffer[SECTOR_SIZE] == old(sectorBuffer[SECTOR_SIZE])
        invariant Scan(d, g, first, 0) == Scan(d, g, first, i)
        invariant i > 0 ==> SlotReadable(d, g, i - 1) && sectorBuffer[..SECTOR_SIZE] == SlotSector(d, g, i - 1)
        invariant cluster == stale.cluster
        invariant size == if i == 0 then stale.size
                          else SlotSize(sectorBuffer[..SECTOR_SIZE], (i - 1) % ENTRIES_PER_SECTOR)
      {
        ScanStep(d, g, first, stale, i);
        var slot := i % ENTRIES_PER_SECTOR;
        if slot == 0 {
          failed := LoadBuffer(d, g.rootStart + i / ENTRIES_PER_SECTOR);
          if failed {
            return;
          }
        } else {
          SameSectorAsBefore(d, g, i);
        }
        size := SlotSize(sectorBuffer[..SECTOR_SIZE], slot);
        if Matches(sectorBuffer[..SECTOR_SIZE], slot, first) {
          cluster := SlotCluster(sectorBuffer[..SECTOR_SIZE], slot);
          return;
        }
        i := i + 1;
      }
      ScanEnd(d, g, first, stale);
    }

    /** The inner loop of fat_read: the sectors of one cluster, until the counter is zero or a read fails. */
    method CopyCluster(d: Drive, g: Geometry, cluster: uint16, buffer: array<byte>, at: nat, wanted: uint32)
      returns (bytesRead: nat, remaining: uint32, failed: bool)
      requires Valid() && buffer != sectorBuffer
      requires at + |CopySectors(d, ClusterSector(g, cluster), g.sectorsPerCluster, wanted).data| <= buffer.Length
      modifies buffer
      ensures var p := CopySectors(d, ClusterSector(g, cluster), g.sectorsPerCluster, wanted);
              && failed == !p.complete && remaining == p.remaining && bytesRead == at + |p.data|
              && buffer[..] == Patched(old(buffer[..]), at, p.data)
    {
      hide ReadSector, CopySectors, Patched, Splits, Subtract, ClusterSector;
      var lba := ClusterSector(g, cluster);
      ghost var all := CopySectors(d, lba, g.sectorsPerCluster, wanted);
      ghost var before, sofar: seq<byte> := buffer[..], [];
      PatchNothing(before, at);
      SplitsStart(all);
      bytesRead, remaining := at, wanted;
      var s := 0;
      while s < g.sectorsPerCluster && remaining > 0
        invariant 0 <= s <= g.sectorsPerCluster && bytesRead == at + |sofar| && |sofar| <= |all.data|
        invariant Splits(all, sofar, CopySectors(d, lba + s, g.sectorsPerCluster - s, remaining))
        invariant buffer[..] == Patched(before, at, sofar)
      {
        SplitsStep(all, sofar, d, lba + s, g.sectorsPerCluster - s, remaining);
        failed := AtaReadSector(d, lba + s, buffer, bytesRead);
        if failed {
          return;
        }
        PatchAppend(before, at, sofar, ReadSector(d, lba + s).value);
        sofar := sofar + ReadSector(d, lba + s).value;
        bytesRead := bytesRead + SECTOR_SIZE;
        remaining := Subtract(remaining);
        s := s + 1;
      }
      SplitsEnd(all, sofar, d, lba + s, g.sectorsPerCluster - s, remaining);
      failed := false;
    }

    /** The FAT lookup of fat_read. */
    method LookUp(d: Drive, g: Geometry, cluster: uint16) returns (failed: bool, next: uint16)
      requires Valid()
      modifies sectorBuffer
      ensures sectorBuffer[SECTOR_SIZE] == old(sectorBuffer[SECTOR_SIZE])
      ensures NextCluster(d, g.fatStart, old(sectorBuffer[SECTOR_SIZE]), cluster) == if failed then None else Some(next)
    {
      hide ReadSector;
      var fatIndex := cluster * 3 / 2;
      failed := LoadBuffer(d, g.fatStart + fatIndex / SECTOR_SIZE);
      if failed {
        return failed, 0;
      }
      var fatOffset := fatIndex % SECTOR_SIZE;
      assert sectorBuffer[..] == sectorBuffer[..SECTOR_SIZE] + [sectorBuffer[SECTOR_SIZE]];
      var word := WordAt(sectorBuffer[..], fatOffset);
      if cluster % 2 == 1 {
        next := word / 16;
      } else {
        next := word % 0x1000;
      }
    }

    /** The chain walk of fat_read, for every length and chain on which it ends inside the buffer. */
    method CopyChain(d: Drive, g: Geometry, firstCluster: uint16, buffer: array<byte>, wanted: uint32, ghost fuel: nat)
      returns (bytesRead: nat)
      requires Valid() && buffer != sectorBuffer
      requires Exits(d, g, sectorBuffer[SECTOR_SIZE], firstCluster, wanted, fuel)
      requires |CopyLoop(d, g, sectorBuffer[SECTOR_SIZE], firstCluster, wanted, fuel)| <= buffer.Length
      modifies buffer, sectorBuffer
      ensures var data := CopyLoop(d, g, old(sectorBuffer[SECTOR_SIZE]), firstCluster, wanted, fuel);
              bytesRead == |data| && buffer[..] == Patched(old(buffer[..]), 0, data)
    {
      hide CopySectors, CopyLoop, Exits, ClusterSector, ReadSector, NextCluster, Patched;
      ghost var stray := sectorBuffer[SECTOR_SIZE];
      ghost var all := CopyLoop(d, g, stray, firstCluster, wanted, fuel);
      ghost var original, sofar, left := buffer[..], [], fuel;
      PatchNothing(original, 0);
      var cluster, remaining := firstCluster, wanted;
      bytesRead := 0;
      while remaining > 0 && cluster < 0x0FF8
        invariant sectorBuffer[SECTOR_SIZE] == stray && bytesRead == |sofar|
        invariant Exits(d, g, stray, cluster, remaining, left)
        invariant all == sofar + CopyLoop(d, g, stray, cluster, remaining, left)
        invariant buffer[..] == Patched(original, 0, sofar)
        decreases left
      {
        LoopStep(d, g, stray, cluster, remaining, left);
        ghost var p := CopySectors(d, ClusterSector(g, cluster), g.sectorsPerCluster, remaining);
        ghost var at := sofar;
        var failed;
        bytesRead, remaining, failed := CopyCluster(d, g, cluster, buffer, bytesRead, remaining);
        PatchAppend(original, 0, at, p.data);
        sofar := at + p.data;
        if failed {
          assert all == sofar;
          return;
        }
        var next;
        failed, next := LookUp(d, g, cluster);
        if failed {
          assert all == sofar;
          return;
        }
        left := left - 1;
        cluster := next;
      }
      LoopEnd(d, g, stray, cluster, remaining, left);
      assert all == sofar;
    }

    /** fat_read */
    method Read(d: Drive, g: Geometry, mounted: bool, first: char8, buffer: array<byte>, maxSize: uint32,
                stale: Stale, ghost fuel: nat) returns (code: int)
      requires Valid() && buffer != sectorBuffer
      requires ReadFits(d, g, mounted, first, maxSize, sectorBuffer[SECTOR_SIZE], stale, fuel, buffer.Length)
      modifies buffer, sectorBuffer
      ensures match FatRead(d, g, mounted, first, maxSize, old(sectorBuffer[SECTOR_SIZE]), stale, fuel)
              case Error(c) => code == c && buffer[..] == old(buffer[..])
              case Bytes(data) =>
                code == |data| && |data| <= buffer.Length && buffer[..] == Patched(old(buffer[..]), 0, data)
    {
      hide Scan, Target, CopyLoop, Exits;
      if !mounted {
        return -1;
      }
      var failed, cluster, size := FindEntry(d, g, first, stale);
      if failed {
        return -1;
      }
      if cluster == 0 {
        return -2;
      }
      var remaining := size;
      if remaining > maxSize {
        remaining := maxSize;
      }
      code := CopyChain(d, g, cluster, buffer, remaining, fuel);
    }
  }
}
