/**
 The packed FAT12 table of kernel/kernel.c.  The disk is a sequence of 512-byte sectors; the table is
 the byte string that starts at sector fatStart and runs on across sector boundaries.  Entry c is made
 of the three nibbles 3c, 3c + 1, 3c + 2 of that string, low nibble first, which is what the 12-bit
 packing of the "FAT Data Structure" section of Microsoft's FAT specification amounts to.
 */
module FatTable {
  import opened Basics

  const SECTOR_SIZE: nat := 512
  const END_OF_CHAIN: nat := 0xFF8

  type Sector = s: seq<byte> | |s| == 512 witness seq(512, _ => 0)
  type Disk = seq<Sector>

  // ---------------------------------------------------------------- the table as a string of nibbles

  /** The first n bytes of the table are on the disk. */
  predicate Holds(disk: Disk, fatStart: nat, n: nat) {
    fatStart * SECTOR_SIZE + n <= |disk| * SECTOR_SIZE
  }

  function TableByte(disk: Disk, fatStart: nat, o: nat): byte
    requires Holds(disk, fatStart, o + 1)
  {
    disk[fatStart + o / SECTOR_SIZE][o % SECTOR_SIZE]
  }

  function Nibble(disk: Disk, fatStart: nat, k: nat): (n: nat)
    requires Holds(disk, fatStart, k / 2 + 1)
    ensures n < 16
  {
    if k % 2 == 0 then TableByte(disk, fatStart, k / 2) % 16 else TableByte(disk, fatStart, k / 2) / 16
  }

  predicate HoldsEntry(disk: Disk, fatStart: nat, c: nat) {
    Holds(disk, fatStart, c * 3 / 2 + 2)
  }

  /** Which twelve of the sixteen bits belong to the entry depends on the parity of the cluster. */
  function Twelve(odd: bool, lo: byte, hi: byte): (v: nat)
    ensures v < 0x1000
  {
    if odd then lo as nat / 16 + 16 * (hi as nat) else lo as nat + 256 * (hi as nat % 16)
  }

  function Entry(disk: Disk, fatStart: nat, c: nat): (v: nat)
    requires HoldsEntry(disk, fatStart, c)
    ensures v < 0x1000
  {
    Twelve(c % 2 == 1, TableByte(disk, fatStart, c * 3 / 2), TableByte(disk, fatStart, c * 3 / 2 + 1))
  }

  lemma TwelveAsNibbles(odd: bool, lo: byte, hi: byte)
    ensures Twelve(odd, lo, hi) == if odd then lo / 16 + 16 * (hi % 16) + 256 * (hi / 16)
                                   else lo % 16 + 16 * (lo / 16) + 256 * (hi % 16)
  {
  }

  /** Consecutive entries are consecutive nibble triples, so distinct entries share no nibble. */
  lemma EntryIsThreeNibbles(disk: Disk, fatStart: nat, c: nat)
    requires HoldsEntry(disk, fatStart, c)
    ensures Holds(disk, fatStart, (3 * c + 2) / 2 + 1)
    ensures Entry(disk, fatStart, c)
         == Nibble(disk, fatStart, 3 * c) + 16 * Nibble(disk, fatStart, 3 * c + 1)
            + 256 * Nibble(disk, fatStart, 3 * c + 2)
  {
    hide TableByte, Twelve;
    var o := c * 3 / 2;
    TwelveAsNibbles(c % 2 == 1, TableByte(disk, fatStart, o), TableByte(disk, fatStart, o + 1));
    if c % 2 == 1 {
      assert 3 * c == 2 * o + 1 && (3 * c + 1) / 2 == o + 1 && (3 * c + 2) / 2 == o + 1;
    } else {
      assert 3 * c == 2 * o && (3 * c + 1) / 2 == o && (3 * c + 2) / 2 == o + 1;
    }
  }

  // ---------------------------------------------------------------- the 16-bit accesses of the code

  /** The two bytes of the entry lie in different sectors, so the code would index past its buffer. */
  predicate Straddles(c: nat) {
    c * 3 / 2 % SECTOR_SIZE == SECTOR_SIZE - 1
  }

  lemma StraddlesIff(c: nat)
    ensures Straddles(c) <==> c % 1024 == 341 || c % 1024 == 682
  {
    var q, r := c / 1024, c % 1024;
    assert c * 3 / 2 == 512 * (3 * q) + r * 3 / 2;
    WholeSectorsDrop(3 * q, r * 3 / 2);
    StraddlesBelow1024(r);
  }

  lemma WholeSectorsDrop(q: nat, h: nat)
    ensures (512 * q + h) % 512 == h % 512
  {
  }

  lemma StraddlesBelow1024(r: nat)
    requires r < 1024
    ensures r * 3 / 2 % 512 == 511 <==> r == 341 || r == 682
  {
    var h := r * 3 / 2;
    if h < 512 {
    } else if h < 1024 {
      assert h % 512 == h - 512;
    } else {
      assert h % 512 == h - 1024;
    }
  }

  /** Two or four bytes of a sector hold a number, least significant byte first. */
  predicate Stores16(sec: Sector, o: nat, v: uint16)
    requires o + 2 <= SECTOR_SIZE
  {
    sec[o] == v % 256 && sec[o + 1] == v / 256
  }

  predicate Stores32(sec: Sector, o: nat, v: uint32)
    requires o + 4 <= SECTOR_SIZE
  {
    && sec[o] == v % 256 && sec[o + 1] == v / 0x100 % 256
    && sec[o + 2] == v / 0x1_0000 % 256 && sec[o + 3] == v / 0x100_0000
  }

  /** Native little-endian loads and stores in a byte buffer. */
  function WordAt(b: seq<byte>, o: nat): uint16
    requires o + 1 < |b|
  {
    (b[o] as nat) + 256 * (b[o + 1] as nat)
  }

  function PutWord(b: seq<byte>, o: nat, w: uint16): (r: seq<byte>)
    requires o + 1 < |b|
    ensures |r| == |b|
  {
    b[o := w % 256][o + 1 := w / 256]
  }

  /**
   The shift or mask on the word at offset o of a sector buffer; at offset 511 its high byte is the stray
   one behind the buffer.
   */
  function DecodeNext(buf: Sector, stray: byte, o: nat, odd: bool): (v: nat)
    requires o < SECTOR_SIZE
    ensures v < 0x1000
  {
    var w := WordAt(buf + [stray], o);
    if odd then w / 16 else w % 0x1000
  }

  /** fat_get_next_cluster, for every cluster: one sector is loaded, stray is the byte behind the buffer. */
  function GetNext(disk: Disk, fatStart: nat, stray: byte, c: nat): nat
    requires Holds(disk, fatStart, c * 3 / 2 + 1)
  {
    var o := c * 3 / 2;
    DecodeNext(disk[fatStart + o / SECTOR_SIZE], stray, o % SECTOR_SIZE, c % 2 == 1)
  }

  /** The word that is written back. */
  function UpdatedWord(odd: bool, w: uint16, next: nat): uint16
    requires next < 0x1000
  {
    if odd then w % 16 + next * 16 else w / 0x1000 * 0x1000 + next
  }

  /** fat_set_next_cluster where the entry lies inside one sector: a read-modify-write of the word that holds it. */
  function SetNext(disk: Disk, fatStart: nat, c: nat, next: nat): (d: Disk)
    requires HoldsEntry(disk, fatStart, c) && !Straddles(c) && next < 0x1000
    ensures |d| == |disk|
  {
    var o := c * 3 / 2;
    var buf := disk[fatStart + o / SECTOR_SIZE];
    disk[fatStart + o / SECTOR_SIZE :=
      PutWord(buf, o % SECTOR_SIZE, UpdatedWord(c % 2 == 1, WordAt(buf, o % SECTOR_SIZE), next))]
  }

  /** fat_set_next_cluster, for every cluster: only the 512 bytes of the buffer are written back. */
  function StoreNext(disk: Disk, fatStart: nat, stray: byte, c: nat, next: nat): (d: Disk)
    requires Holds(disk, fatStart, c * 3 / 2 + 1) && next < 0x1000
    ensures |d| == |disk|
  {
    var o := c * 3 / 2;
    var mem := disk[fatStart + o / SECTOR_SIZE] + [stray];
    disk[fatStart + o / SECTOR_SIZE :=
      PutWord(mem, o % SECTOR_SIZE, UpdatedWord(c % 2 == 1, WordAt(mem, o % SECTOR_SIZE), next))[..SECTOR_SIZE]]
  }

  /** Inside one sector the byte behind the buffer plays no part. */
  lemma StoreNextIsSetNext(disk: Disk, fatStart: nat, stray: byte, c: nat, next: nat)
    requires HoldsEntry(disk, fatStart, c) && !Straddles(c) && next < 0x1000
    ensures StoreNext(disk, fatStart, stray, c, next) == SetNext(disk, fatStart, c, next)
  {
    hide UpdatedWord;
    var p := c * 3 / 2 % SECTOR_SIZE;
    var buf := disk[fatStart + c * 3 / 2 / SECTOR_SIZE];
    assert WordAt(buf + [stray], p) == WordAt(buf, p);
    var w := UpdatedWord(c % 2 == 1, WordAt(buf, p), next);
    assert PutWord(buf + [stray], p, w)[..SECTOR_SIZE] == PutWord(buf, p, w);
  }

  /** The shift-and-mask read is the entry of the packed table. */
  lemma GetNextIsEntry(disk: Disk, fatStart: nat, stray: byte, c: nat)
    requires HoldsEntry(disk, fatStart, c) && !Straddles(c)
    ensures GetNext(disk, fatStart, stray, c) == Entry(disk, fatStart, c)
  {
    var o := c * 3 / 2;
    assert (o + 1) / SECTOR_SIZE == o / SECTOR_SIZE && (o + 1) % SECTOR_SIZE == o % SECTOR_SIZE + 1;
    DecodeIsTwelve(disk[fatStart + o / SECTOR_SIZE], stray, o % SECTOR_SIZE, c % 2 == 1);
  }

  lemma DecodeIsTwelve(buf: Sector, stray: byte, o: nat, odd: bool)
    requires o < SECTOR_SIZE
    ensures DecodeNext(buf, stray, o, odd) == Twelve(odd, buf[o], (buf + [stray])[o + 1])
  {
    var lo, hi := buf[o], (buf + [stray])[o + 1];
    WordOfNibbles(lo % 16, lo / 16, hi % 16, hi / 16);
  }

  /** A straddling entry is decoded correctly only if the stray byte happens to carry the right bits. */
  lemma GetNextStraddlingIff(disk: Disk, fatStart: nat, stray: byte, c: nat)
    requires HoldsEntry(disk, fatStart, c) && Straddles(c)
    ensures var hi := TableByte(disk, fatStart, c * 3 / 2 + 1);
            GetNext(disk, fatStart, stray, c) == Entry(disk, fatStart, c)
            <==> if c % 2 == 1 then stray == hi else stray % 16 == hi % 16
  {
    var o := c * 3 / 2;
    DecodeIsTwelve(disk[fatStart + o / SECTOR_SIZE], stray, o % SECTOR_SIZE, c % 2 == 1);
  }

  /** So the decode is right whatever lies behind the buffer exactly for entries inside one sector. */
  lemma GetNextIsEntryIff(disk: Disk, fatStart: nat, c: nat)
    requires HoldsEntry(disk, fatStart, c)
    ensures (forall stray: byte :: GetNext(disk, fatStart, stray, c) == Entry(disk, fatStart, c)) <==> !Straddles(c)
  {
    hide GetNext, Entry, Straddles, TableByte;
    if Straddles(c) {
      var wrong: byte := if TableByte(disk, fatStart, c * 3 / 2 + 1) % 16 == 0 then 1 else 0;
      GetNextStraddlingIff(disk, fatStart, wrong, c);
      assert GetNext(disk, fatStart, wrong, c) != Entry(disk, fatStart, c);
    } else {
      forall stray: byte
        ensures GetNext(disk, fatStart, stray, c) == Entry(disk, fatStart, c)
      {
        GetNextIsEntry(disk, fatStart, stray, c);
      }
    }
  }

  /** On two blank sectors, with a 1 behind the buffer, cluster 341 seems linked to cluster 16, yet its entry is 0. */
  lemma BlankEntryDecodedWrongly()
    ensures var disk: Disk := [seq(SECTOR_SIZE, _ => 0), seq(SECTOR_SIZE, _ => 0)];
            HoldsEntry(disk, 0, 341) && Entry(disk, 0, 341) == 0 && GetNext(disk, 0, 1, 341) == 16
  {
    var blank: Sector := seq(SECTOR_SIZE, _ => 0);
    DecodeIsTwelve(blank, 1, 511, true);
  }

  lemma WordOfNibbles(a: nat, b: nat, c: nat, d: nat)
    requires a < 16 && b < 16 && c < 16 && d < 16
    ensures var w := a + 16 * b + 256 * c + 4096 * d;
            && w < 0x1_0000 && w % 16 == a && w / 16 % 0x1000 == b + 16 * c + 256 * d
            && w % 0x1000 == a + 16 * b + 256 * c && w / 0x1000 == d
            && w % 256 == a + 16 * b && w / 256 == c + 16 * d
  {
    var x2 := c + 16 * d;
    var x1 := b + 16 * x2;
    var w := a + 16 * x1;
    assert w / 16 == x1 && x1 / 16 == x2 && x2 / 16 == d;
    assert w / 256 == w / 16 / 16 && w / 0x1000 == w / 16 / 16 / 16;
    assert w == 256 * x2 + (a + 16 * b) && w == 0x1000 * d + (a + 16 * b + 256 * c);
  }

  function NibbleOf(v: nat, i: nat): nat {
    if i == 0 then v % 16 else if i == 1 then v / 16 % 16 else v / 256
  }

  lemma SetNextStoresWord(disk: Disk, fatStart: nat, c: nat, next: nat)
    requires HoldsEntry(disk, fatStart, c) && !Straddles(c) && next < 0x1000
    ensures var o := c * 3 / 2;
            var after := SetNext(disk, fatStart, c, next);
            var lo, hi := TableByte(disk, fatStart, o), TableByte(disk, fatStart, o + 1);
            var w := UpdatedWord(c % 2 == 1, lo as nat + 256 * (hi as nat), next);
            TableByte(after, fatStart, o) == w % 256 && TableByte(after, fatStart, o + 1) == w / 256
  {
    var o := c * 3 / 2;
    assert (o + 1) / SECTOR_SIZE == o / SECTOR_SIZE && (o + 1) % SECTOR_SIZE == o % SECTOR_SIZE + 1;
  }

  /** Seen as nibbles, the read-modify-write replaces the entry's own three nibbles and nothing else. */
  lemma SetNextChangesThreeNibbles(disk: Disk, fatStart: nat, c: nat, next: nat, k: nat)
    requires HoldsEntry(disk, fatStart, c) && !Straddles(c) && next < 0x1000
    requires Holds(disk, fatStart, k / 2 + 1)
    ensures Nibble(SetNext(disk, fatStart, c, next), fatStart, k)
         == if 3 * c <= k < 3 * c + 3 then NibbleOf(next, k - 3 * c) else Nibble(disk, fatStart, k)
  {
    hide SetNext, TableByte, NibbleOf, Straddles, UpdatedWord;
    var o := c * 3 / 2;
    SetNextStoresWord(disk, fatStart, c, next);
    var lo, hi := TableByte(disk, fatStart, o), TableByte(disk, fatStart, o + 1);
    if k / 2 != o && k / 2 != o + 1 {
      SameByteElsewhere(disk, fatStart, c, next, k / 2);
    } else if c % 2 == 1 {
      assert 3 * c == 2 * o + 1;
      OddWordStored(lo, hi, next);
    } else {
      assert 3 * c == 2 * o;
      EvenWordStored(lo, hi, next);
    }
  }

  lemma SameByteElsewhere(disk: Disk, fatStart: nat, c: nat, next: nat, i: nat)
    requires HoldsEntry(disk, fatStart, c) && !Straddles(c) && next < 0x1000
    requires Holds(disk, fatStart, i + 1) && i != c * 3 / 2 && i != c * 3 / 2 + 1
    ensures TableByte(SetNext(disk, fatStart, c, next), fatStart, i) == TableByte(disk, fatStart, i)
  {
  }

  lemma ByteOfNibbles(a: nat, b: nat)
    requires a < 16 && b < 16
    ensures (a + 16 * b) % 16 == a && (a + 16 * b) / 16 == b
  {
  }

  lemma OddWordStored(lo: nat, hi: nat, next: nat)
    requires lo < 256 && hi < 256 && next < 0x1000
    ensures var w := UpdatedWord(true, lo + 256 * hi, next);
            && w % 256 % 16 == lo % 16 && w % 256 / 16 == NibbleOf(next, 0)
            && w / 256 % 16 == NibbleOf(next, 1) && w / 256 / 16 == NibbleOf(next, 2)
  {
    var n0, n1, n2 := NibbleOf(next, 0), NibbleOf(next, 1), NibbleOf(next, 2);
    NibblesOfEntry(next);
    WordOfNibbles(lo % 16, lo / 16, hi % 16, hi / 16);
    WordOfNibbles(lo % 16, n0, n1, n2);
    ByteOfNibbles(lo % 16, n0);
    ByteOfNibbles(n1, n2);
  }

  lemma EvenWordStored(lo: nat, hi: nat, next: nat)
    requires lo < 256 && hi < 256 && next < 0x1000
    ensures var w := UpdatedWord(false, lo + 256 * hi, next);
            && w % 256 % 16 == NibbleOf(next, 0) && w % 256 / 16 == NibbleOf(next, 1)
            && w / 256 % 16 == NibbleOf(next, 2) && w / 256 / 16 == hi / 16
  {
    var n0, n1, n2 := NibbleOf(next, 0), NibbleOf(next, 1), NibbleOf(next, 2);
    NibblesOfEntry(next);
    WordOfNibbles(lo % 16, lo / 16, hi % 16, hi / 16);
    WordOfNibbles(n0, n1, n2, hi / 16);
    ByteOfNibbles(n0, n1);
    ByteOfNibbles(n2, hi / 16);
  }

  lemma NibblesOfEntry(v: nat)
    requires v < 0x1000
    ensures NibbleOf(v, 0) < 16 && NibbleOf(v, 1) < 16 && NibbleOf(v, 2) < 16
    ensures v == NibbleOf(v, 0) + 16 * NibbleOf(v, 1) + 256 * NibbleOf(v, 2)
  {
  }

  /** The read-modify-write is exactly a map update, for neighbours, other sectors and straddling entries alike. */
  lemma SetNextUpdatesOneEntry(disk: Disk, fatStart: nat, c: nat, next: nat, d: nat)
    requires HoldsEntry(disk, fatStart, c) && !Straddles(c) && next < 0x1000
    requires HoldsEntry(disk, fatStart, d)
    ensures Entry(SetNext(disk, fatStart, c, next), fatStart, d) == if d == c then next else Entry(disk, fatStart, d)
  {
    hide SetNext, Nibble, NibbleOf, Entry;
    EntryIsThreeNibbles(disk, fatStart, d);
    EntryIsThreeNibbles(SetNext(disk, fatStart, c, next), fatStart, d);
    NibblesOfEntry(next);
    SetNextChangesThreeNibbles(disk, fatStart, c, next, 3 * d);
    SetNextChangesThreeNibbles(disk, fatStart, c, next, 3 * d + 1);
    SetNextChangesThreeNibbles(disk, fatStart, c, next, 3 * d + 2);
  }

  /** What is written is what is read back. */
  lemma SetThenGet(disk: Disk, fatStart: nat, stray: byte, c: nat, next: nat)
    requires HoldsEntry(disk, fatStart, c) && !Straddles(c) && next < 0x1000
    ensures GetNext(SetNext(disk, fatStart, c, next), fatStart, stray, c) == next
  {
    SetNextUpdatesOneEntry(disk, fatStart, c, next, c);
    GetNextIsEntry(SetNext(disk, fatStart, c, next), fatStart, stray, c);
  }

  /** No sector but the one that holds the entry is written. */
  lemma SetNextTouchesOneSector(disk: Disk, fatStart: nat, c: nat, next: nat, s: nat)
    requires HoldsEntry(disk, fatStart, c) && !Straddles(c) && next < 0x1000
    requires s < |disk| && s != fatStart + c * 3 / 2 / SECTOR_SIZE
    ensures SetNext(disk, fatStart, c, next)[s] == disk[s]
  {
  }

  // ---------------------------------------------------------------- stores to straddling entries

  /** A store to a straddling entry replaces the nibbles of it that lie in the first of the two sectors. */
  lemma StraddlingStoreNibbles(disk: Disk, fatStart: nat, stray: byte, c: nat, next: nat, k: nat)
    requires HoldsEntry(disk, fatStart, c) && Straddles(c) && next < 0x1000
    requires Holds(disk, fatStart, k / 2 + 1)
    ensures Nibble(StoreNext(disk, fatStart, stray, c, next), fatStart, k)
         == if 3 * c <= k && k / 2 == c * 3 / 2 then NibbleOf(next, k - 3 * c) else Nibble(disk, fatStart, k)
  {
    hide NibbleOf, TableByte, UpdatedWord, StoreNext;
    var o := c * 3 / 2;
    StraddlingStoreBytes(disk, fatStart, stray, c, next, k / 2);
    var lo := TableByte(disk, fatStart, o);
    NibblesOfEntry(next);
    if k / 2 == o {
      if c % 2 == 1 {
        assert 3 * c == 2 * o + 1;
        OddWordStored(lo, stray, next);
      } else {
        assert 3 * c == 2 * o;
        EvenWordStored(lo, stray, next);
      }
    }
  }

  lemma StraddlingStoreBytes(disk: Disk, fatStart: nat, stray: byte, c: nat, next: nat, i: nat)
    requires HoldsEntry(disk, fatStart, c) && Straddles(c) && next < 0x1000
    requires Holds(disk, fatStart, i + 1)
    ensures var o := c * 3 / 2;
            var w := UpdatedWord(c % 2 == 1, TableByte(disk, fatStart, o) as nat + 256 * (stray as nat), next);
            TableByte(StoreNext(disk, fatStart, stray, c, next), fatStart, i)
            == if i == o then w % 256 else TableByte(disk, fatStart, i)
  {
    hide UpdatedWord;
    var o := c * 3 / 2;
    var buf := disk[fatStart + o / SECTOR_SIZE];
    var w := UpdatedWord(c % 2 == 1, TableByte(disk, fatStart, o) as nat + 256 * (stray as nat), next);
    assert WordAt(buf + [stray], 511) == TableByte(disk, fatStart, o) as nat + 256 * (stray as nat);
    assert PutWord(buf + [stray], 511, w)[..SECTOR_SIZE] == buf[511 := w % 256];
    assert StoreNext(disk, fatStart, stray, c, next) == disk[fatStart + o / SECTOR_SIZE := buf[511 := w % 256]];
  }

  /** Even such a store changes no other entry. */
  lemma StraddlingStoreKeepsOthers(disk: Disk, fatStart: nat, stray: byte, c: nat, next: nat, d: nat)
    requires HoldsEntry(disk, fatStart, c) && Straddles(c) && next < 0x1000
    requires HoldsEntry(disk, fatStart, d) && d != c
    ensures Entry(StoreNext(disk, fatStart, stray, c, next), fatStart, d) == Entry(disk, fatStart, d)
  {
    hide StoreNext, Nibble, NibbleOf, Entry, Straddles;
    EntryIsThreeNibbles(disk, fatStart, d);
    EntryIsThreeNibbles(StoreNext(disk, fatStart, stray, c, next), fatStart, d);
    StraddlingStoreNibbles(disk, fatStart, stray, c, next, 3 * d);
    StraddlingStoreNibbles(disk, fatStart, stray, c, next, 3 * d + 1);
    StraddlingStoreNibbles(disk, fatStart, stray, c, next, 3 * d + 2);
  }

  /** The bits of an entry that lie in its second byte. */
  function HighPart(c: nat, v: nat): nat {
    if c % 2 == 1 then v / 16 else v / 256
  }

  /** The nibbles of a straddling entry before and after the store: its second byte keeps the old ones. */
  lemma StraddlingEntryNibbles(disk: Disk, fatStart: nat, stray: byte, c: nat, next: nat)
    requires HoldsEntry(disk, fatStart, c) && Straddles(c) && next < 0x1000
    ensures var n0, n1, n2 := NibbleOf(next, 0), NibbleOf(next, 1), NibbleOf(next, 2);
            var m1, m2 := Nibble(disk, fatStart, 3 * c + 1), Nibble(disk, fatStart, 3 * c + 2);
            Entry(StoreNext(disk, fatStart, stray, c, next), fatStart, c)
            == n0 + 16 * (if c % 2 == 1 then m1 else n1) + 256 * m2
  {
    hide StoreNext, Nibble, NibbleOf, Entry, Straddles;
    EntryIsThreeNibbles(StoreNext(disk, fatStart, stray, c, next), fatStart, c);
    BytesOfEntry(c);
    StraddlingStoreNibbles(disk, fatStart, stray, c, next, 3 * c);
    StraddlingStoreNibbles(disk, fatStart, stray, c, next, 3 * c + 1);
    StraddlingStoreNibbles(disk, fatStart, stray, c, next, 3 * c + 2);
  }

  /** The first nibble of an entry lies in its first byte, the last one in its second. */
  lemma BytesOfEntry(c: nat)
    ensures 3 * c / 2 == c * 3 / 2 && (3 * c + 2) / 2 == c * 3 / 2 + 1
    ensures (3 * c + 1) / 2 == if c % 2 == 1 then c * 3 / 2 + 1 else c * 3 / 2
  {
  }

  lemma StraddlingStoreLeavesHighPart(disk: Disk, fatStart: nat, stray: byte, c: nat, next: nat)
    requires HoldsEntry(disk, fatStart, c) && Straddles(c) && next < 0x1000
    ensures var after := Entry(StoreNext(disk, fatStart, stray, c, next), fatStart, c);
            && HighPart(c, after) == HighPart(c, Entry(disk, fatStart, c))
            && (HighPart(c, after) == HighPart(c, next) ==> after == next)
  {
    hide StoreNext, Nibble, NibbleOf, Entry, Straddles, HighPart;
    StraddlingEntryNibbles(disk, fatStart, stray, c, next);
    EntryIsThreeNibbles(disk, fatStart, c);
    NibblesOfEntry(next);
    var n0, n1, n2 := NibbleOf(next, 0), NibbleOf(next, 1), NibbleOf(next, 2);
    var m0, m1 := Nibble(disk, fatStart, 3 * c), Nibble(disk, fatStart, 3 * c + 1);
    var m2 := Nibble(disk, fatStart, 3 * c + 2);
    HighPartOfNibbles(c, n0, n1, n2);
    HighPartOfNibbles(c, n0, if c % 2 == 1 then m1 else n1, m2);
    HighPartOfNibbles(c, m0, m1, m2);
  }

  lemma HighPartOfNibbles(c: nat, n0: nat, n1: nat, n2: nat)
    requires n0 < 16 && n1 < 16 && n2 < 16
    ensures HighPart(c, n0 + 16 * n1 + 256 * n2) == if c % 2 == 1 then n1 + 16 * n2 else n2
  {
    WordOfNibbles(n0, n1, n2, 0);
  }

  /** For any cluster the store sets the entry exactly if it does not straddle or its second byte is right already. */
  lemma StoreNextSetsEntryIff(disk: Disk, fatStart: nat, stray: byte, c: nat, next: nat)
    requires HoldsEntry(disk, fatStart, c) && next < 0x1000
    ensures Entry(StoreNext(disk, fatStart, stray, c, next), fatStart, c) == next
            <==> !Straddles(c) || HighPart(c, Entry(disk, fatStart, c)) == HighPart(c, next)
  {
    hide StoreNext, SetNext, Entry, Straddles, HighPart;
    if Straddles(c) {
      StraddlingStoreLeavesHighPart(disk, fatStart, stray, c, next);
    } else {
      StoreNextIsSetNext(disk, fatStart, stray, c, next);
      SetNextUpdatesOneEntry(disk, fatStart, c, next, c);
    }
  }

  /** On two blank sectors the end-of-chain mark for cluster 341 becomes a link to cluster 8. */
  lemma BlankEntryStoredWrongly(stray: byte)
    ensures var disk: Disk := [seq(SECTOR_SIZE, _ => 0), seq(SECTOR_SIZE, _ => 0)];
            HoldsEntry(disk, 0, 341) && Entry(StoreNext(disk, 0, stray, 341, END_OF_CHAIN), 0, 341) == 8
  {
    hide StoreNext;
    var disk: Disk := [seq(SECTOR_SIZE, _ => 0), seq(SECTOR_SIZE, _ => 0)];
    StraddlingEntryNibbles(disk, 0, stray, 341, END_OF_CHAIN);
  }

  // ---------------------------------------------------------------- cluster allocation

  const SCAN_START: nat := 2
  const SCAN_END: nat := 512
  const STRADDLER: nat := 341

  /** The whole table that is scanned lies on the disk. */
  predicate ScanOnDisk(disk: Disk, fatStart: nat) {
    HoldsEntry(disk, fatStart, SCAN_END - 1)
  }

  /** A cluster below the first straddling entry is free. */
  ghost predicate FreeBelowStraddle(disk: Disk, fatStart: nat)
    requires ScanOnDisk(disk, fatStart)
  {
    exists c: nat :: SCAN_START <= c < STRADDLER && Entry(disk, fatStart, c) == 0
  }

  lemma ScannedEntry(disk: Disk, fatStart: nat, c: nat)
    requires ScanOnDisk(disk, fatStart) && c < SCAN_END
    ensures HoldsEntry(disk, fatStart, c) && (Straddles(c) <==> c == STRADDLER)
  {
    StraddlesIff(c);
  }

  /** The scan gets as far as cluster c: every earlier entry is in use. */
  ghost predicate ScanReaches(disk: Disk, fatStart: nat, c: nat)
    requires ScanOnDisk(disk, fatStart)
  {
    SCAN_START <= c < SCAN_END && forall d: nat :: SCAN_START <= d < c ==> Entry(disk, fatStart, d) != 0
  }

  /** fat_alloc_cluster stays inside its sector buffer exactly when a cluster below 341 is free. */
  lemma ScanStaysInBufferIff(disk: Disk, fatStart: nat)
    requires ScanOnDisk(disk, fatStart)
    ensures (forall c: nat :: ScanReaches(disk, fatStart, c) ==> !Straddles(c)) <==> FreeBelowStraddle(disk, fatStart)
  {
    hide Entry, Straddles;
    ScannedEntry(disk, fatStart, STRADDLER);
    if FreeBelowStraddle(disk, fatStart) {
      var free: nat :| SCAN_START <= free < STRADDLER && Entry(disk, fatStart, free) == 0;
      forall c: nat | ScanReaches(disk, fatStart, c)
        ensures !Straddles(c)
      {
        ScannedEntry(disk, fatStart, c);
      }
    } else {
      assert ScanReaches(disk, fatStart, STRADDLER);
    }
  }

  /** A table of 0xFF bytes, every entry in use: the scan meets the straddling entry 341. */
  lemma FullTableRunsPastBuffer()
    ensures var disk: Disk := [seq(SECTOR_SIZE, _ => 0xFF), seq(SECTOR_SIZE, _ => 0xFF)];
            ScanOnDisk(disk, 0) && ScanReaches(disk, 0, STRADDLER) && Straddles(STRADDLER)
  {
    var disk: Disk := [seq(SECTOR_SIZE, _ => 0xFF), seq(SECTOR_SIZE, _ => 0xFF)];
    forall d: nat | SCAN_START <= d < STRADDLER
      ensures Entry(disk, 0, d) != 0
    {
      assert TableByte(disk, 0, d * 3 / 2) == 0xFF && TableByte(disk, 0, d * 3 / 2 + 1) == 0xFF;
    }
  }

  /** The first free cluster at or above lo whose entry does not straddle, or SCAN_END. */
  function FirstFreeCluster(disk: Disk, fatStart: nat, lo: nat): (c: nat)
    requires ScanOnDisk(disk, fatStart) && lo <= SCAN_END
    ensures lo <= c <= SCAN_END && c != STRADDLER
    ensures c < SCAN_END ==> Entry(disk, fatStart, c) == 0
    ensures forall d: nat :: lo <= d < c && d != STRADDLER ==> Entry(disk, fatStart, d) != 0
    decreases SCAN_END - lo
  {
    if lo == SCAN_END || (lo != STRADDLER && Entry(disk, fatStart, lo) == 0) then lo
    else FirstFreeCluster(disk, fatStart, lo + 1)
  }

  /** What fat_alloc_cluster is meant to do: the new disk and the cluster, 0 when none is free. */
  function AllocCluster(disk: Disk, fatStart: nat): (r: (Disk, nat))
    requires ScanOnDisk(disk, fatStart)
    ensures |r.0| == |disk| && r.1 < SCAN_END && r.1 != STRADDLER
    ensures r.1 != 0 ==> SCAN_START <= r.1
    ensures r.1 == 0 ==> r.0 == disk
  {
    var c := FirstFreeCluster(disk, fatStart, SCAN_START);
    if c == SCAN_END then (disk, 0) else
    ScannedEntry(disk, fatStart, c);
    (SetNext(disk, fatStart, c, END_OF_CHAIN), c)
  }

  /** Some cluster whose entry does not straddle is free. */
  ghost predicate HasFree(disk: Disk, fatStart: nat)
    requires ScanOnDisk(disk, fatStart)
  {
    exists c: nat :: SCAN_START <= c < SCAN_END && c != STRADDLER && Entry(disk, fatStart, c) == 0
  }

  /** The intended allocation fails exactly when no cluster is free, and otherwise takes the least free one. */
  lemma AllocClusterTakesLeastFree(disk: Disk, fatStart: nat)
    requires ScanOnDisk(disk, fatStart)
    ensures var c := AllocCluster(disk, fatStart).1;
            && (c != 0 <==> HasFree(disk, fatStart))
            && (c != 0 ==> HoldsEntry(disk, fatStart, c) && !Straddles(c) && Entry(disk, fatStart, c) == 0
                           && forall d: nat :: SCAN_START <= d < c && d != STRADDLER ==> Entry(disk, fatStart, d) != 0)
  {
    hide Entry, SetNext, Straddles;
    ScannedEntry(disk, fatStart, FirstFreeCluster(disk, fatStart, SCAN_START) % SCAN_END);
  }

  // ---------------------------------------------------------------- cluster allocation as coded

  /** The scan as coded, entry 341 decoded with the byte behind the buffer. */
  function ScanFrom(disk: Disk, fatStart: nat, stray: byte, i: nat): (c: nat)
    requires ScanOnDisk(disk, fatStart) && i <= SCAN_END
    ensures i <= c <= SCAN_END
    decreases SCAN_END - i
  {
    if i == SCAN_END || GetNext(disk, fatStart, stray, i) == 0 then i else ScanFrom(disk, fatStart, stray, i + 1)
  }

  /** The cluster that fat_alloc_cluster returns, for every table, 0 when the scan fails. */
  function TakenCluster(disk: Disk, fatStart: nat, stray: byte): (c: nat)
    requires ScanOnDisk(disk, fatStart)
    ensures c == 0 || SCAN_START <= c < SCAN_END
    ensures HoldsEntry(disk, fatStart, c)
  {
    var c := ScanFrom(disk, fatStart, stray, SCAN_START);
    if c == SCAN_END then 0 else c
  }

  /** fat_alloc_cluster as coded, for every table; the stray bytes are those behind the two helpers' buffers. */
  function AllocAsCoded(disk: Disk, fatStart: nat, strayRead: byte, strayWrite: byte): (r: (Disk, nat))
    requires ScanOnDisk(disk, fatStart)
    ensures |r.0| == |disk| && r.1 == TakenCluster(disk, fatStart, strayRead)
  {
    var c := TakenCluster(disk, fatStart, strayRead);
    if c == 0 then (disk, 0) else (StoreNext(disk, fatStart, strayWrite, c, END_OF_CHAIN), c)
  }

  /** The low nibble of entry 341, the only one that lies in the sector which is loaded for it. */
  function StraddlerNibble(disk: Disk, fatStart: nat): nat
    requires ScanOnDisk(disk, fatStart)
  {
    Nibble(disk, fatStart, 3 * STRADDLER)
  }

  lemma StraddlerNibbleIsLow(disk: Disk, fatStart: nat)
    requires ScanOnDisk(disk, fatStart)
    ensures StraddlerNibble(disk, fatStart) == Entry(disk, fatStart, STRADDLER) % 16
  {
    hide Entry, Nibble;
    EntryIsThreeNibbles(disk, fatStart, STRADDLER);
  }

  /** Entry 341 is decoded as 0. */
  predicate LooksFree(disk: Disk, fatStart: nat, stray: byte)
    requires ScanOnDisk(disk, fatStart)
  {
    StraddlerNibble(disk, fatStart) == 0 && stray == 0
  }

  lemma LooksFreeIff(disk: Disk, fatStart: nat, stray: byte)
    requires ScanOnDisk(disk, fatStart)
    ensures GetNext(disk, fatStart, stray, STRADDLER) == 0 <==> LooksFree(disk, fatStart, stray)
  {
    DecodeIsTwelve(disk[fatStart], stray, 511, true);
  }

  /** Entry 341 cannot be mistaken for a free one: an earlier cluster is free, or its first byte shows it in use. */
  ghost predicate AllocSafe(disk: Disk, fatStart: nat)
    requires ScanOnDisk(disk, fatStart)
  {
    FreeBelowStraddle(disk, fatStart) || StraddlerNibble(disk, fatStart) != 0
  }

  lemma {:induction false} ScanFindsFirstFree(disk: Disk, fatStart: nat, stray: byte, i: nat)
    requires ScanOnDisk(disk, fatStart) && i <= SCAN_END
    requires i <= STRADDLER ==>
               FirstFreeCluster(disk, fatStart, i) < STRADDLER || GetNext(disk, fatStart, stray, STRADDLER) != 0
    ensures ScanFrom(disk, fatStart, stray, i) == FirstFreeCluster(disk, fatStart, i)
    decreases SCAN_END - i
  {
    hide Entry, GetNext, Straddles;
    if i < SCAN_END {
      ScannedEntry(disk, fatStart, i);
      if i != STRADDLER {
        GetNextIsEntry(disk, fatStart, stray, i);
      }
      if GetNext(disk, fatStart, stray, i) != 0 {
        ScanFindsFirstFree(disk, fatStart, stray, i + 1);
      }
    }
  }

  lemma {:induction false} ScanStopsAtStraddler(disk: Disk, fatStart: nat, stray: byte, i: nat)
    requires ScanOnDisk(disk, fatStart) && SCAN_START <= i <= STRADDLER
    requires !FreeBelowStraddle(disk, fatStart) && GetNext(disk, fatStart, stray, STRADDLER) == 0
    ensures ScanFrom(disk, fatStart, stray, i) == STRADDLER
    decreases STRADDLER - i
  {
    hide Entry, GetNext, Straddles;
    if i < STRADDLER {
      ScannedEntry(disk, fatStart, i);
      GetNextIsEntry(disk, fatStart, stray, i);
      ScanStopsAtStraddler(disk, fatStart, stray, i + 1);
    }
  }

  lemma AllocClusterIsFirstFree(disk: Disk, fatStart: nat)
    requires ScanOnDisk(disk, fatStart)
    ensures var c := FirstFreeCluster(disk, fatStart, SCAN_START);
            AllocCluster(disk, fatStart).1 == if c == SCAN_END then 0 else c
  {
    hide Entry, SetNext, HoldsEntry, Straddles;
  }

  lemma FirstFreeBelowStraddle(disk: Disk, fatStart: nat)
    requires ScanOnDisk(disk, fatStart) && FreeBelowStraddle(disk, fatStart)
    ensures FirstFreeCluster(disk, fatStart, SCAN_START) < STRADDLER
  {
    hide Entry, FirstFreeCluster;
  }

  /**
   The code takes cluster 341 exactly if no earlier one is free and 341 looks free; otherwise it takes the
   intended one.
   */
  lemma TakenClusterCases(disk: Disk, fatStart: nat, stray: byte)
    requires ScanOnDisk(disk, fatStart)
    ensures TakenCluster(disk, fatStart, stray)
         == if !FreeBelowStraddle(disk, fatStart) && LooksFree(disk, fatStart, stray) then STRADDLER
            else AllocCluster(disk, fatStart).1
  {
    hide Entry, GetNext, LooksFree, FreeBelowStraddle, AllocCluster, FirstFreeCluster, ScanFrom;
    LooksFreeIff(disk, fatStart, stray);
    AllocClusterIsFirstFree(disk, fatStart);
    if !FreeBelowStraddle(disk, fatStart) && LooksFree(disk, fatStart, stray) {
      ScanStopsAtStraddler(disk, fatStart, stray, SCAN_START);
    } else {
      if FreeBelowStraddle(disk, fatStart) {
        FirstFreeBelowStraddle(disk, fatStart);
      }
      ScanFindsFirstFree(disk, fatStart, stray, SCAN_START);
    }
  }

  /**
   The allocation as coded on every table: it fails exactly when no cluster is free nor looks so, it passes
   over no free cluster but possibly 341, and what it takes is free except possibly 341.
   */
  lemma TakenClusterIsLeast(disk: Disk, fatStart: nat, stray: byte)
    requires ScanOnDisk(disk, fatStart)
    ensures var c := TakenCluster(disk, fatStart, stray);
            && (c == 0 <==> !HasFree(disk, fatStart) && !LooksFree(disk, fatStart, stray))
            && (c != 0 && c != STRADDLER ==> !Straddles(c) && Entry(disk, fatStart, c) == 0)
            && (forall d: nat :: SCAN_START <= d < SCAN_END && d != STRADDLER && (d < c || c == 0) ==>
                  Entry(disk, fatStart, d) != 0)
            && (SCAN_END > c > STRADDLER ==> !LooksFree(disk, fatStart, stray))
  {
    hide Entry, Straddles, LooksFree, TakenCluster, AllocCluster;
    TakenClusterCases(disk, fatStart, stray);
    AllocClusterTakesLeastFree(disk, fatStart);
  }

  /** The same in numbers: clusters 2 to 511 are handed out, lowest first and marked 0xFF8; 341 is the exception. */
  lemma AllocationInNumbers(disk: Disk, fatStart: nat, strayRead: byte, strayWrite: byte)
    requires HoldsEntry(disk, fatStart, 511)
    ensures var (after, c) := AllocAsCoded(disk, fatStart, strayRead, strayWrite);
            && (c == 0 || 2 <= c <= 511)
            && (forall d: nat :: 2 <= d <= 511 && d != 341 && (d < c || c == 0) ==>
                  HoldsEntry(disk, fatStart, d) && Entry(disk, fatStart, d) != 0)
            && (c != 0 && c != 341 ==> Entry(disk, fatStart, c) == 0 && Entry(after, fatStart, c) == 0xFF8)
            && (c == 0 ==> after == disk)
  {
    hide Entry, Straddles, LooksFree, TakenCluster, StoreNext;
    var c := TakenCluster(disk, fatStart, strayRead);
    TakenClusterIsLeast(disk, fatStart, strayRead);
    AllocUpdatesOneEntry(disk, fatStart, strayRead, strayWrite, c);
    forall d: nat | 2 <= d <= 511 && d != 341 && (d < c || c == 0)
      ensures HoldsEntry(disk, fatStart, d) && Entry(disk, fatStart, d) != 0
    {
      ScannedEntry(disk, fatStart, d);
    }
  }

  /** The code allocates as intended, whatever lies behind its buffers, exactly on safe tables. */
  lemma AllocIsAsIntendedIff(disk: Disk, fatStart: nat)
    requires ScanOnDisk(disk, fatStart)
    ensures (forall r: byte, w: byte :: AllocAsCoded(disk, fatStart, r, w) == AllocCluster(disk, fatStart))
            <==> AllocSafe(disk, fatStart)
  {
    hide Entry, SetNext, StoreNext, Straddles, TakenCluster, StraddlerNibble;
    if AllocSafe(disk, fatStart) {
      forall r: byte, w: byte
        ensures AllocAsCoded(disk, fatStart, r, w) == AllocCluster(disk, fatStart)
      {
        TakenClusterCases(disk, fatStart, r);
        var c := FirstFreeCluster(disk, fatStart, SCAN_START);
        if c < SCAN_END {
          ScannedEntry(disk, fatStart, c);
          StoreNextIsSetNext(disk, fatStart, w, c, END_OF_CHAIN);
        }
      }
    } else {
      TakenClusterCases(disk, fatStart, 0);
      assert AllocAsCoded(disk, fatStart, 0, 0).1 == STRADDLER;
    }
  }

  /** What the code hands out was free, whatever lies behind its buffer, exactly if the table is safe or 341 is free. */
  lemma TakenClusterIsFreeIff(disk: Disk, fatStart: nat)
    requires ScanOnDisk(disk, fatStart)
    ensures (forall r: byte :: var c := TakenCluster(disk, fatStart, r); c == 0 || Entry(disk, fatStart, c) == 0)
            <==> AllocSafe(disk, fatStart) || Entry(disk, fatStart, STRADDLER) == 0
  {
    hide Entry, Straddles, TakenCluster, AllocCluster, StraddlerNibble;
    forall r: byte
      ensures TakenCluster(disk, fatStart, r) == STRADDLER <==> !AllocSafe(disk, fatStart) && r == 0
      ensures var c := TakenCluster(disk, fatStart, r);
              c != 0 && c != STRADDLER ==> Entry(disk, fatStart, c) == 0
    {
      TakenClusterCases(disk, fatStart, r);
      TakenClusterIsLeast(disk, fatStart, r);
    }
    assert TakenCluster(disk, fatStart, 0) == STRADDLER <==> !AllocSafe(disk, fatStart);
  }

  /** The first sector of a table whose entries below 341 are in use and whose entry 341 has a low nibble of 0. */
  function CrowdedSector(): Sector {
    seq(SECTOR_SIZE, i requires 0 <= i < SECTOR_SIZE => if i == 511 then 0x0F else 0xFF)
  }

  lemma CrowdedEntry(disk: Disk, d: nat)
    requires |disk| == 2 && disk[0] == CrowdedSector() && disk[1] == seq(SECTOR_SIZE, _ => 2) && d <= STRADDLER
    ensures HoldsEntry(disk, 0, d) && Entry(disk, 0, d) != 0
    ensures d == STRADDLER ==> Entry(disk, 0, d) == 32
    ensures d < STRADDLER ==> Entry(disk, 0, d) >= END_OF_CHAIN
  {
    var lo, hi := TableByte(disk, 0, d * 3 / 2), TableByte(disk, 0, d * 3 / 2 + 1);
    assert d < STRADDLER ==> lo == 0xFF && hi % 16 == 15 && (d % 2 == 1 ==> hi == 0xFF);
    assert d == STRADDLER ==> lo == 0x0F && hi == 2;
  }

  /** With cluster 341 linked to cluster 32 the code hands out 341 although it is in use. */
  lemma UsedClusterIsHandedOut()
    ensures var disk: Disk := [CrowdedSector(), seq(SECTOR_SIZE, _ => 2)];
            ScanOnDisk(disk, 0) && Entry(disk, 0, STRADDLER) == 32 && TakenCluster(disk, 0, 0) == STRADDLER
  {
    hide TakenCluster, Entry, CrowdedSector, StraddlerNibble, AllocCluster;
    var disk: Disk := [CrowdedSector(), seq(SECTOR_SIZE, _ => 2)];
    forall d: nat | d <= STRADDLER
      ensures HoldsEntry(disk, 0, d) && Entry(disk, 0, d) != 0
    {
      CrowdedEntry(disk, d);
    }
    CrowdedEntry(disk, STRADDLER);
    StraddlerNibbleIsLow(disk, 0);
    TakenClusterCases(disk, 0, 0);
  }

  /** On a safe table entry 341 is no exception: if it is passed over, it is in use. */
  lemma SafeAllocSkipsNoFreeCluster(disk: Disk, fatStart: nat, stray: byte)
    requires ScanOnDisk(disk, fatStart) && AllocSafe(disk, fatStart)
    ensures forall d: nat :: SCAN_START <= d < TakenCluster(disk, fatStart, stray) ==> Entry(disk, fatStart, d) != 0
  {
    hide Entry, AllocCluster, TakenCluster, Straddles, StraddlerNibble;
    TakenClusterCases(disk, fatStart, stray);
    AllocClusterTakesLeastFree(disk, fatStart);
    StraddlerNibbleIsLow(disk, fatStart);
  }

  /** The entry of an allocated cluster: the end-of-chain mark, of which 341 gets the low nibble only. */
  function MarkedEntry(c: nat, was: nat): nat {
    if c == STRADDLER then 8 + was / 16 * 16 else END_OF_CHAIN
  }

  lemma MarkStraddler(disk: Disk, fatStart: nat, stray: byte)
    requires ScanOnDisk(disk, fatStart)
    ensures Entry(StoreNext(disk, fatStart, stray, STRADDLER, END_OF_CHAIN), fatStart, STRADDLER)
         == MarkedEntry(STRADDLER, Entry(disk, fatStart, STRADDLER))
  {
    hide StoreNext, Entry, Nibble;
    EntryIsThreeNibbles(disk, fatStart, STRADDLER);
    StraddlingEntryNibbles(disk, fatStart, stray, STRADDLER, END_OF_CHAIN);
  }

  /** An allocation changes no entry but that of the cluster it takes, for every table. */
  lemma AllocUpdatesOneEntry(disk: Disk, fatStart: nat, strayRead: byte, strayWrite: byte, d: nat)
    requires ScanOnDisk(disk, fatStart) && HoldsEntry(disk, fatStart, d)
    ensures var (after, c) := AllocAsCoded(disk, fatStart, strayRead, strayWrite);
            Entry(after, fatStart, d)
            == if d == c && c != 0 then MarkedEntry(c, Entry(disk, fatStart, d)) else Entry(disk, fatStart, d)
  {
    hide Entry, SetNext, StoreNext, Straddles, TakenCluster;
    var c := TakenCluster(disk, fatStart, strayRead);
    if c != 0 {
      ScannedEntry(disk, fatStart, c);
      if c == STRADDLER {
        MarkStraddler(disk, fatStart, strayWrite);
        if d != c {
          StraddlingStoreKeepsOthers(disk, fatStart, strayWrite, c, END_OF_CHAIN, d);
        }
      } else {
        StoreNextIsSetNext(disk, fatStart, strayWrite, c, END_OF_CHAIN);
        SetNextUpdatesOneEntry(disk, fatStart, c, END_OF_CHAIN, d);
      }
    }
  }

  /** Successive allocations take increasing clusters, unless 341 is passed over at first and looks free later. */
  lemma AllocationsIncrease(disk: Disk, fatStart: nat, strayRead: byte, strayWrite: byte, strayNext: byte)
    requires ScanOnDisk(disk, fatStart) && TakenCluster(disk, fatStart, strayRead) != 0
    ensures var (after, c) := AllocAsCoded(disk, fatStart, strayRead, strayWrite);
            var next := TakenCluster(after, fatStart, strayNext);
            next != 0 ==> next > c || (next == STRADDLER && strayRead != 0 == strayNext)
  {
    hide Entry, Straddles, TakenCluster, StoreNext, StraddlerNibble;
    var (after, c) := AllocAsCoded(disk, fatStart, strayRead, strayWrite);
    var next := TakenCluster(after, fatStart, strayNext);
    TakenClusterIsLeast(disk, fatStart, strayRead);
    TakenClusterIsLeast(after, fatStart, strayNext);
    if 0 < next <= c {
      AllocUpdatesOneEntry(disk, fatStart, strayRead, strayWrite, next);
      TakenAtStraddler(after, fatStart, strayNext);
      StraddlerNibbleIsLow(disk, fatStart);
      StraddlerNibbleIsLow(after, fatStart);
      LowNibbleOfMark(Entry(disk, fatStart, STRADDLER));
    }
  }

  lemma TakenAtStraddler(disk: Disk, fatStart: nat, stray: byte)
    requires ScanOnDisk(disk, fatStart)
    ensures TakenCluster(disk, fatStart, stray) == STRADDLER ==> LooksFree(disk, fatStart, stray)
  {
    hide TakenCluster, AllocCluster, LooksFree;
    TakenClusterCases(disk, fatStart, stray);
  }

  lemma LowNibbleOfMark(was: nat)
    ensures MarkedEntry(STRADDLER, was) % 16 == 8
  {
  }

  /** Whatever lies behind the buffers, allocations increase exactly if the table is safe or only 341 may be free. */
  lemma AllocationsIncreaseIff(disk: Disk, fatStart: nat)
    requires ScanOnDisk(disk, fatStart)
    ensures (forall r: byte, w: byte, r': byte ::
               TakenCluster(disk, fatStart, r) == 0
               || TakenCluster(AllocAsCoded(disk, fatStart, r, w).0, fatStart, r') == 0
               || TakenCluster(AllocAsCoded(disk, fatStart, r, w).0, fatStart, r') > TakenCluster(disk, fatStart, r))
            <==> AllocSafe(disk, fatStart) || !HasFree(disk, fatStart)
  {
    hide Entry, Straddles, TakenCluster, AllocAsCoded, StraddlerNibble;
    if AllocSafe(disk, fatStart) || !HasFree(disk, fatStart) {
      forall r: byte, w: byte, r': byte
        ensures TakenCluster(disk, fatStart, r) == 0
                || TakenCluster(AllocAsCoded(disk, fatStart, r, w).0, fatStart, r') == 0
                || TakenCluster(AllocAsCoded(disk, fatStart, r, w).0, fatStart, r') > TakenCluster(disk, fatStart, r)
      {
        SafeAllocationsIncrease(disk, fatStart, r, w, r');
      }
    } else {
      UnsafeAllocationGoesBack(disk, fatStart);
    }
  }

  lemma SafeAllocationsIncrease(disk: Disk, fatStart: nat, strayRead: byte, strayWrite: byte, strayNext: byte)
    requires ScanOnDisk(disk, fatStart) && (AllocSafe(disk, fatStart) || !HasFree(disk, fatStart))
    ensures var (after, c) := AllocAsCoded(disk, fatStart, strayRead, strayWrite);
            var next := TakenCluster(after, fatStart, strayNext);
            c != 0 && next != 0 ==> next > c
  {
    hide Entry, Straddles, TakenCluster, StoreNext, StraddlerNibble;
    var (after, c) := AllocAsCoded(disk, fatStart, strayRead, strayWrite);
    if c != 0 && TakenCluster(after, fatStart, strayNext) == STRADDLER {
      TakenClusterIsLeast(disk, fatStart, strayRead);
      TakenAtStraddler(after, fatStart, strayNext);
      AllocUpdatesOneEntry(disk, fatStart, strayRead, strayWrite, STRADDLER);
      StraddlerNibbleIsLow(disk, fatStart);
      StraddlerNibbleIsLow(after, fatStart);
      LowNibbleOfMark(Entry(disk, fatStart, STRADDLER));
    }
    if c != 0 {
      AllocationsIncrease(disk, fatStart, strayRead, strayWrite, strayNext);
    }
  }

  lemma UnsafeAllocationGoesBack(disk: Disk, fatStart: nat)
    requires ScanOnDisk(disk, fatStart) && !AllocSafe(disk, fatStart) && HasFree(disk, fatStart)
    ensures var (after, c) := AllocAsCoded(disk, fatStart, 1, 0);
            c > STRADDLER && TakenCluster(after, fatStart, 0) == STRADDLER
  {
    hide Entry, Straddles, TakenCluster, StoreNext, StraddlerNibble;
    var (after, c) := AllocAsCoded(disk, fatStart, 1, 0);
    TakenClusterIsLeast(disk, fatStart, 1);
    TakenAtStraddler(disk, fatStart, 1);
    assert c > STRADDLER;
    forall d: nat | SCAN_START <= d <= STRADDLER
      ensures HoldsEntry(disk, fatStart, d) && Entry(after, fatStart, d) == Entry(disk, fatStart, d)
    {
      ScannedEntry(disk, fatStart, d);
      AllocUpdatesOneEntry(disk, fatStart, 1, 0, d);
    }
    StraddlerNibbleIsLow(disk, fatStart);
    StraddlerNibbleIsLow(after, fatStart);
    TakenClusterCases(after, fatStart, 0);
  }

  /** With entries 2 to 340 in use and the rest free, 342 may be taken first and 341 after it. */
  lemma AllocationGoesBack()
    ensures var disk: Disk := [CrowdedSector(), seq(SECTOR_SIZE, _ => 0)];
            && ScanOnDisk(disk, 0)
            && var (after, c) := AllocAsCoded(disk, 0, 1, 0);
            c > STRADDLER && TakenCluster(after, 0, 0) == STRADDLER
  {
    hide TakenCluster, AllocCluster, StoreNext, StraddlerNibble;
    var disk: Disk := [CrowdedSector(), seq(SECTOR_SIZE, _ => 0)];
    forall d: nat | SCAN_START <= d < STRADDLER
      ensures Entry(disk, 0, d) != 0
    {
      assert TableByte(disk, 0, d * 3 / 2) == 0xFF && TableByte(disk, 0, d * 3 / 2 + 1) % 16 == 15;
    }
    assert TableByte(disk, 0, 511) == 0x0F && TableByte(disk, 0, 512) == 0;
    assert TableByte(disk, 0, 513) == 0 && TableByte(disk, 0, 514) == 0;
    assert Entry(disk, 0, 342) == 0;
    StraddlerNibbleIsLow(disk, 0);
    UnsafeAllocationGoesBack(disk, 0);
  }
}
