/**
 The page tables of kernel/mm/vmm.c.  Directory and tables live in ordinary physical frames: physical
 memory is one flat sequence of 32-bit words, 1024 per frame, and every entry is a word of it.  The
 abstract view is a plain map from virtual page number to mapping.  Bit-fields follow the x86 layout
 of the two entry structs: present, rw, user in bits 0, 1, 2 and the frame number in bits 12..31.
 */
module Paging {
  import opened Basics
  import opened PageAllocator

  const ENTRIES: nat := 1024
  const MEMORY_WORDS: nat := 1073741824

  // ---------------------------------------------------------------- entry bit-fields

  function Flags(e: uint32): nat { e % 4096 }
  function Frame(e: uint32): (f: nat)
    ensures f < PAGE_COUNT
  {
    e / 4096
  }

  predicate Present(e: uint32) { Flags(e) % 2 == 1 }
  predicate Writable(e: uint32) { Flags(e) / 2 % 2 == 1 }
  predicate User(e: uint32) { Flags(e) / 4 % 2 == 1 }
  predicate LargePage(e: uint32) { Flags(e) / 128 % 2 == 1 }

  /** The bits no operation touches. */
  function Others(e: uint32): (nat, nat) { (Flags(e) / 8 % 16, Flags(e) / 256) }

  function Entry(f: nat, flags: nat): (e: uint32)
    requires f < PAGE_COUNT && flags < 4096
    ensures Frame(e) == f && Flags(e) == flags
  {
    f * 4096 + flags
  }

  function Bit(b: bool): nat { if b then 1 else 0 }

  /** Twelve flag bits: present, rw, user, four more, page size, and the four above it. */
  function Pack(p: nat, w: nat, u: nat, mid: nat, ps: nat, top: nat): (flags: nat)
    requires p < 2 && w < 2 && u < 2 && mid < 16 && ps < 2 && top < 16
    ensures flags < 4096
    ensures flags % 2 == p && flags / 2 % 2 == w && flags / 4 % 2 == u && flags / 128 % 2 == ps
    ensures flags / 8 % 16 == mid && flags / 256 == top
  {
    var x4 := ps + 2 * top;
    var x3 := mid + 16 * x4;
    var x2 := u + 2 * x3;
    var x1 := w + 2 * x2;
    var flags := p + 2 * x1;
    assert flags / 2 == x1 && x1 / 2 == x2 && x2 / 2 == x3 && x3 / 16 == x4;
    assert flags / 4 == flags / 2 / 2;
    assert flags / 8 == flags / 2 / 2 / 2;
    assert flags / 128 == flags / 2 / 2 / 2 / 16;
    assert flags / 256 == flags / 128 / 2;
    flags
  }

  // A bit-field store keeps every other field of the word.

  function WithFrame(e: uint32, f: nat): (r: uint32)
    requires f < PAGE_COUNT
    ensures Frame(r) == f && Present(r) == Present(e) && Writable(r) == Writable(e) && User(r) == User(e)
    ensures LargePage(r) == LargePage(e) && Others(r) == Others(e)
  {
    Entry(f, Flags(e))
  }

  function WithPresent(e: uint32): (r: uint32)
    ensures Frame(r) == Frame(e) && Present(r) && Writable(r) == Writable(e) && User(r) == User(e)
    ensures LargePage(r) == LargePage(e) && Others(r) == Others(e)
  {
    var fl := Flags(e);
    Entry(Frame(e), Pack(1, fl / 2 % 2, fl / 4 % 2, fl / 8 % 16, fl / 128 % 2, fl / 256))
  }

  function WithWritable(e: uint32, b: bool): (r: uint32)
    ensures Frame(r) == Frame(e) && Present(r) == Present(e) && Writable(r) == b && User(r) == User(e)
    ensures LargePage(r) == LargePage(e) && Others(r) == Others(e)
  {
    var fl := Flags(e);
    Entry(Frame(e), Pack(fl % 2, Bit(b), fl / 4 % 2, fl / 8 % 16, fl / 128 % 2, fl / 256))
  }

  function WithUser(e: uint32, b: bool): (r: uint32)
    ensures Frame(r) == Frame(e) && Present(r) == Present(e) && Writable(r) == Writable(e) && User(r) == b
    ensures LargePage(r) == LargePage(e) && Others(r) == Others(e)
  {
    var fl := Flags(e);
    Entry(Frame(e), Pack(fl % 2, fl / 2 % 2, Bit(b), fl / 8 % 16, fl / 128 % 2, fl / 256))
  }

  function WithoutLargePage(e: uint32): (r: uint32)
    ensures Frame(r) == Frame(e) && Present(r) == Present(e) && Writable(r) == Writable(e) && User(r) == User(e)
    ensures !LargePage(r) && Others(r) == Others(e)
  {
    var fl := Flags(e);
    Entry(Frame(e), Pack(fl % 2, fl / 2 % 2, fl / 4 % 2, fl / 8 % 16, 0, fl / 256))
  }

  // ---------------------------------------------------------------- physical memory

  type Memory = seq<uint32>

  function Word(mem: Memory, frame: nat, i: nat): uint32
    requires |mem| == MEMORY_WORDS && frame < PAGE_COUNT && i < ENTRIES
  {
    mem[frame * ENTRIES + i]
  }

  function Store(mem: Memory, frame: nat, i: nat, w: uint32): (m: Memory)
    requires |mem| == MEMORY_WORDS && frame < PAGE_COUNT && i < ENTRIES
    ensures |m| == MEMORY_WORDS
    ensures forall f: nat, j: nat :: f < PAGE_COUNT && j < ENTRIES ==>
              Word(m, f, j) == if f == frame && j == i then w else Word(mem, f, j)
  {
    mem[frame * ENTRIES + i := w]
  }

  /** memset(frame, 0, PAGE_SIZE) */
  function Zeroed(mem: Memory, frame: nat): (m: Memory)
    requires |mem| == MEMORY_WORDS && frame < PAGE_COUNT
    ensures |m| == MEMORY_WORDS
    ensures forall f: nat, j: nat :: f < PAGE_COUNT && j < ENTRIES ==>
              Word(m, f, j) == if f == frame then 0 else Word(mem, f, j)
  {
    var m := mem[..frame * ENTRIES] + seq(ENTRIES, _ => 0) + mem[(frame + 1) * ENTRIES..];
    assert forall f: nat, j: nat :: f < PAGE_COUNT && j < ENTRIES ==>
        Word(m, f, j) == if f == frame then 0 else Word(mem, f, j);
    m
  }

  // ---------------------------------------------------------------- the machine and its translations

  datatype Machine = Machine(mem: Memory, dir: nat, pages: Allocator) {
    ghost predicate Valid() {
      |mem| == MEMORY_WORDS && dir < PAGE_COUNT && pages.Valid()
    }
  }

  datatype Mapping = Mapping(frame: nat, writable: bool, user: bool)

  predicate TablePresent(m: Machine, pd: nat)
    requires m.Valid() && pd < ENTRIES
  {
    Present(Word(m.mem, m.dir, pd))
  }

  function Table(m: Machine, pd: nat): (t: nat)
    requires m.Valid() && pd < ENTRIES
    ensures t < PAGE_COUNT
  {
    Frame(Word(m.mem, m.dir, pd))
  }

  /** What the processor finds for a virtual page: directory entry, then table entry. */
  function Walk(m: Machine, vpn: nat): Option<Mapping>
    requires m.Valid() && vpn < PAGE_COUNT
  {
    if !TablePresent(m, vpn / ENTRIES) then None else
    var pte := Word(m.mem, Table(m, vpn / ENTRIES), vpn % ENTRIES);
    if !Present(pte) then None else Some(Mapping(Frame(pte), Writable(pte), User(pte)))
  }

  type Translation = map<nat, Mapping>

  ghost function Translations(m: Machine): Translation
    requires m.Valid()
  {
    map v: nat | v < PAGE_COUNT && Walk(m, v).Some? :: Walk(m, v).value
  }

  function VirtualPage(virt: uint32): (v: nat)
    ensures v < PAGE_COUNT && v / ENTRIES == virt / 4194304 && v % ENTRIES == virt / 4096 % ENTRIES
  {
    virt / 4096
  }

  /** The leaf permissions and frame a call asks for. */
  function Requested(phys: uint32, flags: uint32): Mapping {
    Mapping(phys / 4096, flags % 2 == 1, flags / 2 % 2 == 1)
  }

  // ---------------------------------------------------------------- vmm_init and vmm_map_page on values

  /** Make sure a table for the 4 MB region exists.  An exhausted allocator yields frame 0, unchecked. */
  function EnsureTable(m: Machine, pd: nat, user: bool): (r: Machine)
    requires m.Valid() && pd < ENTRIES
    ensures r.Valid() && r.dir == m.dir
  {
    if TablePresent(m, pd) then m else
    AllocateIsBounded(m.pages);
    var (pages, addr) := Allocate(m.pages);
    var mem := Zeroed(m.mem, addr / PAGE_SIZE);
    var pde := WithUser(WithWritable(WithPresent(WithFrame(Word(mem, m.dir, pd), addr / 4096)), true), user);
    Machine(Store(mem, m.dir, pd, pde), m.dir, pages)
  }

  lemma AllocateIsBounded(a: Allocator)
    requires a.Valid()
    ensures var (b, addr) := Allocate(a); b.Valid() && addr / PAGE_SIZE < PAGE_COUNT && addr % PAGE_SIZE == 0
  {
    NextFitIsNearest(a);
  }

  function MapPage(m: Machine, phys: uint32, virt: uint32, flags: uint32): (r: Machine)
    requires m.Valid()
    ensures r.Valid() && r.dir == m.dir
  {
    var pd, pt := virt / 4194304, virt / 4096 % ENTRIES;
    var e := EnsureTable(m, pd, flags / 2 % 2 == 1);
    var t := Table(e, pd);
    var pte := WithUser(WithWritable(WithPresent(WithFrame(Word(e.mem, t, pt), phys / 4096)),
                                     flags % 2 == 1), flags / 2 % 2 == 1);
    e.(mem := Store(e.mem, t, pt, pte))
  }

  /** The first n entries of the identity table. */
  function IdentityTable(mem: Memory, table: nat, n: nat): (r: Memory)
    requires |mem| == MEMORY_WORDS && table < PAGE_COUNT && n <= ENTRIES
    ensures |r| == MEMORY_WORDS
    ensures forall f: nat, j: nat :: f < PAGE_COUNT && j < ENTRIES && (f != table || j >= n) ==>
              Word(r, f, j) == Word(mem, f, j)
    ensures forall j: nat :: j < n ==>
              var w := Word(r, table, j); Present(w) && Writable(w) && !User(w) && Frame(w) == j
  {
    if n == 0 then mem else
    var before := IdentityTable(mem, table, n - 1);
    Store(before, table, n - 1,
          WithUser(WithWritable(WithPresent(WithFrame(Word(before, table, n - 1), n - 1)), true), false))
  }

  function InitTables(mem: Memory, pages: Allocator): (r: Machine)
    requires |mem| == MEMORY_WORDS && pages.Valid()
    ensures r.Valid()
  {
    AllocateIsBounded(pages);
    var (pages1, dirAddr) := Allocate(pages);
    var dir := dirAddr / PAGE_SIZE;
    AllocateIsBounded(pages1);
    var (pages2, tableAddr) := Allocate(pages1);
    var table := tableAddr / PAGE_SIZE;
    var filled := IdentityTable(Zeroed(Zeroed(mem, dir), table), table, ENTRIES);
    var pde := WithoutLargePage(WithUser(WithWritable(WithPresent(WithFrame(Word(filled, dir, 0), table)), true),
                                         false));
    Machine(Store(filled, dir, 0, pde), dir, pages2)
  }

  // ---------------------------------------------------------------- the joint invariant

  /**
   Directory and present tables sit on pairwise distinct used frames that no client holds; clients hold
   used frames only; frame 0 is neither free nor held.  Directory entries never denote large pages and
   never take write access away.
   */
  ghost predicate Inv(m: Machine, held: set<nat>) {
    && m.Valid()
    && 0 !in m.pages.free && 0 !in held
    && held !! m.pages.free && (forall p <- held :: p < PAGE_COUNT)
    && m.dir != 0 && m.dir !in m.pages.free && m.dir !in held
    && (forall i: nat :: i < ENTRIES ==>
          var pde := Word(m.mem, m.dir, i); !LargePage(pde) && (Present(pde) ==> Writable(pde)))
    && (forall i: nat :: i < ENTRIES && TablePresent(m, i) ==>
          Table(m, i) !in m.pages.free && Table(m, i) !in held && Table(m, i) != m.dir)
    && (forall i: nat, j: nat :: i < ENTRIES && j < ENTRIES && i != j && TablePresent(m, i) && TablePresent(m, j) ==>
          Table(m, i) != Table(m, j))
  }

  /** Frame 0, which an exhausted allocator hands out as NULL, already serves as a table. */
  ghost predicate FrameZeroInUse(m: Machine)
    requires m.Valid()
  {
    exists i: nat :: i < ENTRIES && TablePresent(m, i) && Table(m, i) == 0
  }

  /** What a caller can check before vmm_map_page. */
  ghost predicate RoomFor(m: Machine, virt: uint32)
    requires m.Valid()
  {
    TablePresent(m, virt / 4194304) || m.pages.free != {} || !FrameZeroInUse(m)
  }

  lemma EnsureTableKeeps(m: Machine, held: set<nat>, pd: nat, user: bool)
    requires Inv(m, held) && pd < ENTRIES
    requires TablePresent(m, pd) || m.pages.free != {} || !FrameZeroInUse(m)
    ensures var e := EnsureTable(m, pd, user);
            && Inv(e, held)
            && TablePresent(e, pd)
            && (forall v: nat :: v < PAGE_COUNT ==> Walk(e, v) == Walk(m, v))
  {
    hide Flags, Frame, Present, Writable, User, LargePage, Word, Store, Zeroed;
    hide WithFrame, WithPresent, WithWritable, WithUser;
    NextFitIsNearest(m.pages);
    if !TablePresent(m, pd) {
      var e := EnsureTable(m, pd, user);
      var t := Table(e, pd);
      assert t == Allocate(m.pages).1 / PAGE_SIZE;
      assert t != m.dir && t !in held && t !in e.pages.free;
      assert e.pages.free <= m.pages.free;
      forall i: nat | i < ENTRIES && i != pd
        ensures TablePresent(e, i) == TablePresent(m, i) && Table(e, i) == Table(m, i)
        ensures TablePresent(m, i) ==> Table(m, i) != t
      {
      }
      forall v: nat | v < PAGE_COUNT
        ensures Walk(e, v) == Walk(m, v)
      {
        var i := v / ENTRIES;
        if i == pd {
          assert Word(e.mem, t, v % ENTRIES) == 0;
          ZeroIsNotPresent();
        } else if TablePresent(m, i) {
          assert Table(m, i) != t && Table(m, i) != m.dir;
        }
      }
    }
  }

  lemma ZeroIsNotPresent()
    ensures !Present(0) && !LargePage(0)
  {
  }

  /** Writing one entry of a present table moves no table and rebinds that entry's virtual page only. */
  lemma StoreEntryRebinds(e: Machine, held: set<nat>, vpn: nat, pte: uint32)
    requires Inv(e, held) && vpn < PAGE_COUNT && TablePresent(e, vpn / ENTRIES) && Present(pte)
    ensures var r := e.(mem := Store(e.mem, Table(e, vpn / ENTRIES), vpn % ENTRIES, pte));
            && Inv(r, held)
            && (forall v: nat :: v < PAGE_COUNT ==>
                  Walk(r, v) == if v == vpn then Some(Mapping(Frame(pte), Writable(pte), User(pte))) else Walk(e, v))
  {
    hide Flags, Frame, Present, Writable, User, LargePage, Word, Store;
    var t := Table(e, vpn / ENTRIES);
    var r := e.(mem := Store(e.mem, t, vpn % ENTRIES, pte));
    forall i: nat | i < ENTRIES
      ensures TablePresent(r, i) == TablePresent(e, i) && Table(r, i) == Table(e, i)
    {
    }
  }

  /** One call rebinds exactly its own virtual page, in a region with or without a table. */
  lemma MapPageRebindsOnePage(m: Machine, held: set<nat>, phys: uint32, virt: uint32, flags: uint32)
    requires Inv(m, held) && RoomFor(m, virt)
    ensures var r := MapPage(m, phys, virt, flags);
            && Inv(r, held)
            && Translations(r) == Translations(m)[VirtualPage(virt) := Requested(phys, flags)]
  {
    hide Flags, Frame, Present, Writable, User, LargePage, Word, Store, Zeroed, EnsureTable, TablePresent, Table;
    hide WithFrame, WithPresent, WithWritable, WithUser;
    var pd := virt / 4194304;
    var user := flags / 2 % 2 == 1;
    EnsureTableKeeps(m, held, pd, user);
    var e := EnsureTable(m, pd, user);
    var t, pt := Table(e, pd), virt / 4096 % ENTRIES;
    var pte := WithUser(WithWritable(WithPresent(WithFrame(Word(e.mem, t, pt), phys / 4096)), flags % 2 == 1), user);
    StoreEntryRebinds(e, held, VirtualPage(virt), pte);
  }

  /** The words of memory the processor loads for a virtual page: bits 12 to 31 of the first lead to the second. */
  function EntryWords(m: Machine, v: nat): (uint32, uint32)
    requires |m.mem| == 0x4000_0000 && m.dir < 0x10_0000 && v < 0x10_0000
  {
    var pde := m.mem[m.dir * 1024 + v / 1024];
    (pde, m.mem[pde / 4096 * 1024 + v % 1024])
  }

  /** The walk in bits of these words: present, rw and user are bits 0, 1 and 2, the frame is bits 12 to 31. */
  lemma WalkInWords(m: Machine, v: nat)
    requires m.Valid() && v < 0x10_0000
    ensures var (pde, pte) := EntryWords(m, v);
            Walk(m, v) == if pde % 2 == 0 || pte % 2 == 0 then None
                          else Some(Mapping(pte / 4096, pte / 2 % 2 == 1, pte / 4 % 2 == 1))
  {
    var (pde, pte) := EntryWords(m, v);
    hide Flags;
    FlagBits(pde);
    FlagBits(pte);
  }

  lemma FlagBits(e: uint32)
    ensures Flags(e) % 2 == e % 2 && Flags(e) / 2 % 2 == e / 2 % 2 && Flags(e) / 4 % 2 == e / 4 % 2
  {
    var f, g := e / 4096, e % 4096;
    HalveSum(2048 * f, g);
    HalveSum(1024 * f, g / 2);
    HalveSum(512 * f, g / 2 / 2);
    assert e == 2 * (2048 * f) + g && e / 4 == e / 2 / 2 && g / 4 == g / 2 / 2;
  }

  lemma HalveSum(k: nat, g: nat)
    ensures (2 * k + g) % 2 == g % 2 && (2 * k + g) / 2 == k + g / 2
  {
  }

  /**
   What a call stores, in bits of words: both entries of its page are present, and the second one holds the
   frame and the two permissions asked for.  The first one is kept if it was present, and is otherwise
   writable and open to user code as asked.
   */
  lemma MapPageStoresEntries(m: Machine, held: set<nat>, phys: uint32, virt: uint32, flags: uint32)
    requires Inv(m, held) && RoomFor(m, virt)
    ensures var was := EntryWords(m, virt / 4096).0;
            var (pde, pte) := EntryWords(MapPage(m, phys, virt, flags), virt / 4096);
            && pde % 2 == 1 && pte % 2 == 1
            && pte / 4096 == phys / 4096 && pte / 2 % 2 == flags % 2 && pte / 4 % 2 == flags / 2 % 2
            && if was % 2 == 1 then pde == was else pde / 2 % 2 == 1 && pde / 4 % 2 == flags / 2 % 2
  {
    hide MapPage, Translations, Walk, EntryWords, Inv, RoomFor;
    InvIsMachine(m, held);
    RequestedIsWalked(m, phys, virt, flags, held);
    MapPageDirectoryEntry(m, held, phys, virt, flags);
    WalkInWords(MapPage(m, phys, virt, flags), virt / 4096);
  }

  lemma MapPageDirectoryEntry(m: Machine, held: set<nat>, phys: uint32, virt: uint32, flags: uint32)
    requires Inv(m, held) && RoomFor(m, virt)
    ensures var was := EntryWords(m, virt / 4096).0;
            var pde := EntryWords(MapPage(m, phys, virt, flags), virt / 4096).0;
            if was % 2 == 1 then pde == was else pde / 2 % 2 == 1 && pde / 4 % 2 == flags / 2 % 2
  {
    hide Flags, Word, Store, EnsureTable, EntryWords, MapPage, Inv, RoomFor;
    InvIsMachine(m, held);
    MapPageKeepsEnsured(m, held, phys, virt, flags);
    EnsuredEntry(m, virt / 4194304, flags / 2 % 2 == 1);
    DirectoryWord(m, virt);
    DirectoryWord(MapPage(m, phys, virt, flags), virt);
    FlagBits(EntryWords(m, virt / 4096).0);
    FlagBits(EntryWords(MapPage(m, phys, virt, flags), virt / 4096).0);
  }

  lemma InvIsMachine(m: Machine, held: set<nat>)
    requires Inv(m, held)
    ensures m.Valid()
  {
  }

  /** The entry store of a call leaves the directory as the table creation left it. */
  lemma MapPageKeepsEnsured(m: Machine, held: set<nat>, phys: uint32, virt: uint32, flags: uint32)
    requires Inv(m, held) && RoomFor(m, virt)
    ensures Word(MapPage(m, phys, virt, flags).mem, m.dir, virt / 4194304)
         == Word(EnsureTable(m, virt / 4194304, flags / 2 % 2 == 1).mem, m.dir, virt / 4194304)
  {
    hide Flags, Frame, Present, Writable, User, LargePage, Word, Store, EnsureTable;
    hide WithFrame, WithPresent, WithWritable, WithUser;
    EnsureTableKeeps(m, held, virt / 4194304, flags / 2 % 2 == 1);
  }

  lemma DirectoryWord(m: Machine, virt: uint32)
    requires m.Valid()
    ensures EntryWords(m, virt / 4096).0 == Word(m.mem, m.dir, virt / 4194304)
  {
  }

  /** The other nine flag bits of a page's entry stay as they were, and are clear in a new table. */
  lemma MapPageKeepsOtherBits(m: Machine, held: set<nat>, phys: uint32, virt: uint32, flags: uint32)
    requires Inv(m, held) && RoomFor(m, virt)
    ensures var (pde, was) := EntryWords(m, virt / 4096);
            var pte := EntryWords(MapPage(m, phys, virt, flags), virt / 4096).1;
            pte % 4096 / 8 == if pde % 2 == 1 then was % 4096 / 8 else 0
  {
    hide Flags, Frame, Word, Store, EnsureTable, EntryWords, MapPage, Inv, FrameZeroInUse, Table, Present;
    hide WithFrame, WithPresent, WithWritable, WithUser, LargePage, Others;
    InvIsMachine(m, held);
    var pd, pt := virt / 4194304, virt / 4096 % ENTRIES;
    var e, r := EnsureTable(m, pd, flags / 2 % 2 == 1), MapPage(m, phys, virt, flags);
    var w := Word(e.mem, Table(e, pd), pt);
    EnsuredTableWord(m, held, pd, pt, flags / 2 % 2 == 1);
    MapPageTableWord(m, held, phys, virt, flags);
    TableWord(m, virt);
    TableWord(r, virt);
    SameOtherBits(w, Word(r.mem, Table(r, pd), pt));
    FlagBits(EntryWords(m, virt / 4096).0);
    DirectoryWord(m, virt);
    PresentIsOdd(Word(m.mem, m.dir, pd));
  }

  lemma PresentIsOdd(e: uint32)
    ensures Present(e) <==> e % 2 == 1
  {
    FlagBits(e);
  }

  lemma TableWord(m: Machine, virt: uint32)
    requires m.Valid()
    ensures EntryWords(m, virt / 4096).1 == Word(m.mem, Table(m, virt / 4194304), virt / 4096 % ENTRIES)
  {
  }

  lemma SameOtherBits(e: uint32, r: uint32)
    requires LargePage(r) == LargePage(e) && Others(r) == Others(e)
    ensures r % 4096 / 8 == e % 4096 / 8
  {
    OtherBits(e);
    OtherBits(r);
  }

  lemma OtherBits(e: uint32)
    ensures e % 4096 / 8 == Others(e).0 + 16 * (if LargePage(e) then 1 else 0) + 32 * Others(e).1
  {
    var h := e % 4096 / 8;
    assert h / 16 == Flags(e) / 128 && h / 16 / 2 == Flags(e) / 256;
  }

  lemma EnsuredTableWord(m: Machine, held: set<nat>, pd: nat, pt: nat, user: bool)
    requires Inv(m, held) && pd < ENTRIES && pt < ENTRIES
    requires TablePresent(m, pd) || m.pages.free != {} || !FrameZeroInUse(m)
    ensures var e := EnsureTable(m, pd, user);
            Word(e.mem, Table(e, pd), pt) == if TablePresent(m, pd) then Word(m.mem, Table(m, pd), pt) else 0
  {
    hide Flags, Frame, Present, Writable, User, LargePage, Word, Store, Zeroed;
    hide WithFrame, WithPresent, WithWritable, WithUser;
    NextFitIsNearest(m.pages);
    AllocateIsBounded(m.pages);
  }

  lemma MapPageTableWord(m: Machine, held: set<nat>, phys: uint32, virt: uint32, flags: uint32)
    requires Inv(m, held) && RoomFor(m, virt)
    ensures var pd, pt := virt / 4194304, virt / 4096 % ENTRIES;
            var e, r := EnsureTable(m, pd, flags / 2 % 2 == 1), MapPage(m, phys, virt, flags);
            var w, pte := Word(e.mem, Table(e, pd), pt), Word(r.mem, Table(r, pd), pt);
            LargePage(pte) == LargePage(w) && Others(pte) == Others(w)
  {
    hide Flags, Frame, Present, Writable, User, LargePage, Others, Word, Store, EnsureTable;
    hide WithFrame, WithPresent, WithWritable, WithUser;
    EnsureTableKeeps(m, held, virt / 4194304, flags / 2 % 2 == 1);
  }

  /** The directory entry of a new table. */
  lemma EnsuredEntry(m: Machine, pd: nat, user: bool)
    requires m.Valid() && pd < ENTRIES
    ensures var e := EnsureTable(m, pd, user);
            var pde := Word(e.mem, m.dir, pd);
            if TablePresent(m, pd) then e == m else Writable(pde) && User(pde) == user
  {
    hide Flags, Frame, Present, Writable, User, Word, Store, Zeroed, WithFrame, WithPresent, WithWritable, WithUser;
  }

  lemma RequestedIsWalked(m: Machine, phys: uint32, virt: uint32, flags: uint32, held: set<nat>)
    requires Inv(m, held) && RoomFor(m, virt)
    ensures Walk(MapPage(m, phys, virt, flags), VirtualPage(virt)) == Some(Requested(phys, flags))
  {
    MapPageRebindsOnePage(m, held, phys, virt, flags);
    hide Flags, Frame, Present, Writable, User, LargePage, Word, MapPage, VirtualPage, Requested;
    assert VirtualPage(virt) in Translations(MapPage(m, phys, virt, flags));
  }

  /** With no page left and frame 0 already in use, the second NULL table destroys the invariant. */
  lemma MapPageWithoutRoomBreaks(m: Machine, held: set<nat>, phys: uint32, virt: uint32, flags: uint32)
    requires Inv(m, held) && !RoomFor(m, virt)
    ensures !Inv(MapPage(m, phys, virt, flags), held)
  {
    hide Flags, Frame, Present, Writable, User, LargePage, Word, Store, Zeroed;
    hide WithFrame, WithPresent, WithWritable, WithUser;
    NextFitIsNearest(m.pages);
    var pd := virt / 4194304;
    var e := EnsureTable(m, pd, flags / 2 % 2 == 1);
    var r := MapPage(m, phys, virt, flags);
    var i: nat :| i < ENTRIES && TablePresent(m, i) && Table(m, i) == 0;
    assert Table(e, pd) == 0;
    assert TablePresent(e, i) && Table(e, i) == 0;
    assert TablePresent(r, i) && TablePresent(r, pd) && Table(r, i) == Table(r, pd);
  }

  /** The exact condition, which a caller could check, under which vmm_map_page keeps the tables sound. */
  lemma MapPageIsSoundIff(m: Machine, held: set<nat>, phys: uint32, virt: uint32, flags: uint32)
    requires Inv(m, held)
    ensures Inv(MapPage(m, phys, virt, flags), held) <==> RoomFor(m, virt)
  {
    if RoomFor(m, virt) {
      MapPageRebindsOnePage(m, held, phys, virt, flags);
    } else {
      MapPageWithoutRoomBreaks(m, held, phys, virt, flags);
    }
  }

  /** A machine with no free page whose only table, in frame 0, maps virtual page 5 to frame 7. */
  ghost function ExhaustedMachine(): (m: Machine)
    ensures m.Valid()
  {
    var blank := seq(MEMORY_WORDS, _ => 0);
    Machine(Store(Store(blank, 1, 0, Entry(0, 3)), 0, 5, Entry(7, 1)), 1, Allocator({}, PAGE_COUNT))
  }

  lemma ExhaustedEntries()
    ensures Present(Entry(0, 3)) && Writable(Entry(0, 3)) && !LargePage(Entry(0, 3)) && !LargePage(0)
    ensures Present(Entry(7, 1)) && !Writable(Entry(7, 1)) && !User(Entry(7, 1)) && !Present(0)
  {
  }

  /** Mapping one page of another region on that machine silently unmaps virtual page 5. */
  lemma MappingWithoutRoomUnmaps(phys: uint32, flags: uint32)
    ensures var m := ExhaustedMachine();
            && Inv(m, {})
            && !RoomFor(m, 4194304)
            && Walk(m, 5) == Some(Mapping(7, false, false))
            && Walk(MapPage(m, phys, 4194304, flags), 5) == None
  {
    ExhaustedEntries();
    hide Flags, Frame, Present, Writable, User, LargePage, Word, Store, Zeroed, Entry;
    hide WithFrame, WithPresent, WithWritable, WithUser;
    var blank := seq(MEMORY_WORDS, _ => 0);
    BlankWords(blank);
    var m := ExhaustedMachine();
    assert Word(m.mem, 1, 0) == Entry(0, 3) && Word(m.mem, 0, 5) == Entry(7, 1);
    assert forall i: nat :: 0 < i < ENTRIES ==> Word(m.mem, 1, i) == 0;
    assert TablePresent(m, 0) && Table(m, 0) == 0;
    NextFitIsNearest(m.pages);
    var e := EnsureTable(m, 1, flags / 2 % 2 == 1);
    assert Word(e.mem, 0, 5) == 0;
    assert Table(e, 1) == 0 && Table(e, 0) == 0;
    var r := MapPage(m, phys, 4194304, flags);
    assert Word(r.mem, 0, 5) == 0;
  }

  lemma BlankWords(mem: Memory)
    requires mem == seq(MEMORY_WORDS, _ => 0)
    ensures forall f: nat, i: nat :: f < PAGE_COUNT && i < ENTRIES ==> Word(mem, f, i) == 0
  {
  }

  // ---------------------------------------------------------------- effective access

  /** Writes reach a page only if both the directory entry and the table entry allow them. */
  predicate WriteAccess(m: Machine, vpn: nat)
    requires m.Valid() && vpn < PAGE_COUNT
  {
    && TablePresent(m, vpn / ENTRIES) && Writable(Word(m.mem, m.dir, vpn / ENTRIES))
    && Walk(m, vpn).Some? && Walk(m, vpn).value.writable
  }

  /** Write access is always what the leaf entry says, so what the last call for the page requested. */
  lemma WriteRequestIsHonoured(m: Machine, held: set<nat>, phys: uint32, virt: uint32, flags: uint32)
    requires Inv(m, held) && RoomFor(m, virt)
    ensures WriteAccess(MapPage(m, phys, virt, flags), VirtualPage(virt)) == Requested(phys, flags).writable
  {
    MapPageRebindsOnePage(m, held, phys, virt, flags);
    var r := MapPage(m, phys, virt, flags);
    hide Flags, Frame, Present, Writable, User, LargePage, Word, MapPage, VirtualPage, Requested;
    assert VirtualPage(virt) in Translations(r);
  }

  /** User code reaches a page only if both the directory entry and the table entry allow it. */
  predicate UserAccess(m: Machine, vpn: nat)
    requires m.Valid() && vpn < PAGE_COUNT
  {
    && TablePresent(m, vpn / ENTRIES) && User(Word(m.mem, m.dir, vpn / ENTRIES))
    && Walk(m, vpn).Some? && Walk(m, vpn).value.user
  }

  /** The first mapping of a 4 MB region fixes its directory user bit, so later requests may be ignored. */
  lemma UserRequestIsHonouredIff(m: Machine, held: set<nat>, phys: uint32, virt: uint32, flags: uint32)
    requires Inv(m, held) && RoomFor(m, virt)
    ensures var pd := virt / 4194304;
            UserAccess(MapPage(m, phys, virt, flags), VirtualPage(virt)) == Requested(phys, flags).user
            <==>
            !Requested(phys, flags).user || !TablePresent(m, pd) || User(Word(m.mem, m.dir, pd))
  {
    MapPageRebindsOnePage(m, held, phys, virt, flags);
    hide Flags, Frame, Present, Writable, User, LargePage, Word, Store, Zeroed;
    hide WithFrame, WithPresent, WithWritable, WithUser;
    var pd, pt := virt / 4194304, virt / 4096 % ENTRIES;
    EnsureTableKeeps(m, held, pd, flags / 2 % 2 == 1);
    var e := EnsureTable(m, pd, flags / 2 % 2 == 1);
    var r := MapPage(m, phys, virt, flags);
    assert Word(r.mem, r.dir, pd) == Word(e.mem, e.dir, pd);
    assert VirtualPage(virt) in Translations(r);
  }

  // ---------------------------------------------------------------- vmm_init

  ghost function IdentityMap(): Translation {
    map v: nat | v < ENTRIES :: Mapping(v, true, false)
  }

  /** vmm_init maps the first 4 MB onto itself, supervisor read-write, and nothing else. */
  lemma InitTablesIsIdentity(mem: Memory, pages: Allocator, held: set<nat>)
    requires |mem| == MEMORY_WORDS && pages.Valid() && 0 !in pages.free && pages.free != {}
    requires 0 !in held && held !! pages.free && forall p <- held :: p < PAGE_COUNT
    ensures var m := InitTables(mem, pages);
            && Inv(m, held) && Translations(m) == IdentityMap()
            && forall i: nat :: i < ENTRIES ==> (TablePresent(m, i) <==> i == 0)
  {
    hide Flags, Frame, Present, Writable, User, LargePage, Word, Store, Zeroed, IdentityTable;
    hide WithFrame, WithPresent, WithWritable, WithUser, WithoutLargePage;
    AllocateIsBounded(pages);
    NextFitIsNearest(pages);
    var (pages1, dirAddr) := Allocate(pages);
    AllocateIsBounded(pages1);
    NextFitIsNearest(pages1);
    var dir, table := dirAddr / PAGE_SIZE, Allocate(pages1).1 / PAGE_SIZE;
    assert dir != 0 && dir in pages.free && dir !in pages1.free;
    assert table == 0 || table in pages1.free;
    var m := InitTables(mem, pages);
    assert m.dir == dir && m.pages == Allocate(pages1).0;
    ZeroIsNotPresent();
    assert TablePresent(m, 0) && Table(m, 0) == table;
    forall i: nat | 0 < i < ENTRIES
      ensures !TablePresent(m, i)
    {
    }
    forall v: nat | v < PAGE_COUNT
      ensures Walk(m, v) == if v < ENTRIES then Some(Mapping(v, true, false)) else None
    {
    }
  }

  /** Every word of directory and table after vmm_init: frame number, present and rw bits, and no other bit. */
  lemma InitTablesWords(mem: Memory, pages: Allocator, i: nat)
    requires |mem| == MEMORY_WORDS && pages.Valid() && 0 !in pages.free && pages.free != {} && i < 1024
    ensures var m := InitTables(mem, pages);
            && m.dir < 0x10_0000 && |m.mem| == 0x4000_0000
            && m.mem[m.dir * 1024 + i] % 4096 == (if i == 0 then 3 else 0)
            && (i > 0 ==> m.mem[m.dir * 1024 + i] == 0)
            && m.mem[m.mem[m.dir * 1024] / 4096 * 1024 + i] == i * 4096 + 3
  {
    hide Flags, Frame, Present, Writable, User, LargePage, Word, Store, Zeroed, IdentityTable, InitTables;
    InitTablesEntries(mem, pages, i);
    var m := InitTables(mem, pages);
    WordIsMemory(m.mem, m.dir, i);
    WordIsMemory(m.mem, m.dir, 0);
    WordIsMemory(m.mem, Frame(Word(m.mem, m.dir, 0)), i);
    FrameIsQuotient(Word(m.mem, m.dir, 0));
  }

  lemma WordIsMemory(mem: Memory, f: nat, i: nat)
    requires |mem| == MEMORY_WORDS && f < PAGE_COUNT && i < ENTRIES
    ensures Word(mem, f, i) == mem[f * 1024 + i]
  {
  }

  lemma FrameIsQuotient(e: uint32)
    ensures Frame(e) == e / 4096
  {
  }

  /** The stores of an entry that was 0 set the frame, present and rw, and leave every other bit clear. */
  lemma EntryFromZero(f: nat)
    requires f < PAGE_COUNT
    ensures WithUser(WithWritable(WithPresent(WithFrame(0, f)), true), false) == f * 4096 + 3
    ensures WithoutLargePage(f * 4096 + 3) == f * 4096 + 3
  {
    hide Flags, Frame, Entry, Pack;
    PlainFlags(f);
    assert WithFrame(0, f) == Entry(f, 0);
    assert WithPresent(Entry(f, 0)) == Entry(f, 1);
    assert WithWritable(Entry(f, 1), true) == Entry(f, 3);
    assert WithUser(Entry(f, 3), false) == Entry(f, 3);
    assert WithoutLargePage(Entry(f, 3)) == Entry(f, 3);
  }

  lemma PlainFlags(f: nat)
    requires f < PAGE_COUNT
    ensures Flags(0) == 0 && Entry(f, 3) == f * 4096 + 3
    ensures Pack(1, 0, 0, 0, 0, 0) == 1 && Pack(1, 1, 0, 0, 0, 0) == 3
  {
    PackLow(1, 0, 0);
    PackLow(1, 1, 0);
  }

  lemma PackLow(p: nat, w: nat, u: nat)
    requires p < 2 && w < 2 && u < 2
    ensures Pack(p, w, u, 0, 0, 0) == p + 2 * w + 4 * u
  {
  }

  lemma IdentityStep(mem: Memory, table: nat, n: nat)
    requires |mem| == MEMORY_WORDS && table < PAGE_COUNT && 0 < n <= ENTRIES
    ensures Word(IdentityTable(mem, table, n), table, n - 1)
         == WithUser(WithWritable(WithPresent(WithFrame(Word(mem, table, n - 1), n - 1)), true), false)
    ensures forall j: nat :: j < n - 1 ==>
              Word(IdentityTable(mem, table, n), table, j) == Word(IdentityTable(mem, table, n - 1), table, j)
  {
    hide Word, Store, WithFrame, WithPresent, WithWritable, WithUser, Present, Writable, User, Frame;
  }

  lemma {:induction false} IdentityWords(mem: Memory, table: nat, n: nat, j: nat)
    requires |mem| == MEMORY_WORDS && table < PAGE_COUNT && j < n <= ENTRIES
    requires forall i: nat :: i < ENTRIES ==> Word(mem, table, i) == 0
    ensures Word(IdentityTable(mem, table, n), table, j) == j * 4096 + 3
    decreases n
  {
    hide Word, Store, IdentityTable, WithFrame, WithPresent, WithWritable, WithUser, Present, Writable, User, Frame;
    IdentityStep(mem, table, n);
    if j < n - 1 {
      IdentityWords(mem, table, n - 1, j);
    } else {
      EntryFromZero(j);
    }
  }

  lemma InitTablesEntries(mem: Memory, pages: Allocator, i: nat)
    requires |mem| == MEMORY_WORDS && pages.Valid() && 0 !in pages.free && pages.free != {} && i < ENTRIES
    ensures var m := InitTables(mem, pages);
            && Word(m.mem, m.dir, 0) % 4096 == 3
            && (i > 0 ==> Word(m.mem, m.dir, i) == 0)
            && Word(m.mem, Frame(Word(m.mem, m.dir, 0)), i) == i * 4096 + 3
  {
    hide Flags, Frame, Present, Writable, User, LargePage, Word, Store, Zeroed, IdentityTable;
    hide WithFrame, WithPresent, WithWritable, WithUser, WithoutLargePage;
    AllocateIsBounded(pages);
    NextFitIsNearest(pages);
    var (pages1, dirAddr) := Allocate(pages);
    AllocateIsBounded(pages1);
    NextFitIsNearest(pages1);
    var dir, table := dirAddr / PAGE_SIZE, Allocate(pages1).1 / PAGE_SIZE;
    assert dir != table;
    IdentityWords(Zeroed(Zeroed(mem, dir), table), table, ENTRIES, i);
    EntryFromZero(table);
    FrameIsQuotient(table * 4096 + 3);
  }

  /** On a machine with memory above 1 MB vmm_init puts the directory over the first page of the kernel image. */
  lemma InitTablesClearsImage(mem: Memory, memorySize: uint32, i: nat)
    requires |mem| == MEMORY_WORDS && memorySize >= (RESERVED_PAGES + 1) * PAGE_SIZE && 0 < i < ENTRIES
    ensures var pages := Allocator(InitiallyFree(memorySize), 0);
            && pages.Valid()
            && var m := InitTables(mem, pages);
            m.dir == RESERVED_PAGES && Word(m.mem, RESERVED_PAGES, i) == 0
  {
    hide Flags, Frame, Present, Writable, User, LargePage, Word, Store, Zeroed, IdentityTable;
    hide WithFrame, WithPresent, WithWritable, WithUser, WithoutLargePage;
    var pages := Allocator(InitiallyFree(memorySize), 0);
    FirstAllocationIsImage(memorySize);
    NextFitIsNearest(pages);
    var pages1 := Allocate(pages).0;
    AllocateIsBounded(pages);
    AllocateIsBounded(pages1);
    NextFitIsNearest(pages1);
    assert RESERVED_PAGES !in pages1.free;
    assert Allocate(pages1).1 / PAGE_SIZE != RESERVED_PAGES;
  }

  /** One free page is enough, and with none the directory itself lands on frame 0. */
  lemma InitTablesIsSoundIff(mem: Memory, pages: Allocator)
    requires |mem| == MEMORY_WORDS && pages.Valid() && 0 !in pages.free
    ensures Inv(InitTables(mem, pages), {}) <==> pages.free != {}
  {
    if pages.free != {} {
      InitTablesIsIdentity(mem, pages, {});
    } else {
      NextFitIsNearest(pages);
    }
  }

  /** So after vmm_init no request for user access to the first 4 MB has an effect. */
  lemma UserRequestFailsAfterInit(mem: Memory, pages: Allocator, phys: uint32, virt: uint32, flags: uint32)
    requires |mem| == MEMORY_WORDS && pages.Valid() && 0 !in pages.free && pages.free != {}
    requires virt < 4194304 && Requested(phys, flags).user
    ensures !UserAccess(MapPage(InitTables(mem, pages), phys, virt, flags), VirtualPage(virt))
  {
    hide Flags, Frame, Present, Writable, User, LargePage, Word, Store, Zeroed, IdentityTable, MapPage;
    hide WithFrame, WithPresent, WithWritable, WithUser, WithoutLargePage;
    InitTablesIsIdentity(mem, pages, {});
    var m := InitTables(mem, pages);
    assert TablePresent(m, 0) && !User(Word(m.mem, m.dir, 0));
    UserRequestIsHonouredIff(m, {}, phys, virt, flags);
  }

  // ---------------------------------------------------------------- runs

  datatype Call =
    | Map(phys: uint32, virt: uint32, flags: uint32)
    | TakePage
    | GivePage(page: nat)
    | WriteWord(page: nat, index: nat, word: uint32)

  /** The machine and the pages its clients hold. */
  datatype System = System(m: Machine, held: set<nat>)

  /** What clients may do: map when there is room, and free or write only pages they hold. */
  ghost predicate Allowed(s: System, c: Call)
    requires s.m.Valid()
  {
    match c
    case Map(_, virt, _) => RoomFor(s.m, virt)
    case TakePage => true
    case GivePage(p) => p in s.held
    case WriteWord(p, i, _) => p in s.held && p < PAGE_COUNT && i < ENTRIES
  }

  ghost function Perform(s: System, c: Call): (r: System)
    requires s.m.Valid() && Allowed(s, c)
    ensures r.m.Valid()
  {
    match c
    case Map(phys, virt, flags) => s.(m := MapPage(s.m, phys, virt, flags))
    case TakePage =>
      AllocateIsBounded(s.m.pages);
      var l := Serve(Ledger(s.m.pages, s.held), Take);
      System(s.m.(pages := l.pages), l.held)
    case GivePage(p) =>
      var l := Serve(Ledger(s.m.pages, s.held), Give(p));
      System(s.m.(pages := l.pages), l.held)
    case WriteWord(p, i, w) => s.(m := s.m.(mem := Store(s.m.mem, p, i, w)))
  }

  ghost predicate AllowedRun(s: System, cs: seq<Call>)
    requires s.m.Valid()
    decreases |cs|
  {
    cs != [] ==> Allowed(s, cs[0]) && AllowedRun(Perform(s, cs[0]), cs[1..])
  }

  ghost function PerformAll(s: System, cs: seq<Call>): (r: System)
    requires s.m.Valid() && AllowedRun(s, cs)
    ensures r.m.Valid()
    decreases |cs|
  {
    if cs == [] then s else PerformAll(Perform(s, cs[0]), cs[1..])
  }

  /** The plain map a sequence of calls asks for: only the Map calls count, in order. */
  ghost function Intended(t: Translation, cs: seq<Call>): Translation
    decreases |cs|
  {
    if cs == [] then t else
    Intended(if cs[0].Map? then t[VirtualPage(cs[0].virt) := Requested(cs[0].phys, cs[0].flags)] else t, cs[1..])
  }

  lemma SameTablesSameWalk(m: Machine, r: Machine)
    requires m.Valid() && r.Valid() && r.dir == m.dir
    requires forall i: nat :: i < ENTRIES ==> Word(r.mem, m.dir, i) == Word(m.mem, m.dir, i)
    requires forall i: nat, j: nat :: i < ENTRIES && j < ENTRIES && TablePresent(m, i) ==>
               Word(r.mem, Table(m, i), j) == Word(m.mem, Table(m, i), j)
    ensures Translations(r) == Translations(m)
  {
    hide Flags, Frame, Present, Writable, User, LargePage, Word;
    forall v: nat | v < PAGE_COUNT
      ensures Walk(r, v) == Walk(m, v)
    {
      assert Word(r.mem, m.dir, v / ENTRIES) == Word(m.mem, m.dir, v / ENTRIES);
    }
  }

  /** Allocation, release and writes to held pages move no table and change no translation. */
  lemma ClientStepKeepsTables(s: System, c: Call)
    requires Inv(s.m, s.held) && Allowed(s, c) && !c.Map?
    ensures var r := Perform(s, c); Inv(r.m, r.held) && Translations(r.m) == Translations(s.m)
  {
    hide Flags, Frame, Present, Writable, User, LargePage, Word, Store;
    NextFitIsNearest(s.m.pages);
    var r := Perform(s, c);
    forall i: nat | i < ENTRIES
      ensures Word(r.m.mem, r.m.dir, i) == Word(s.m.mem, s.m.dir, i)
      ensures TablePresent(r.m, i) == TablePresent(s.m, i) && Table(r.m, i) == Table(s.m, i)
    {
    }
    SameTablesSameWalk(s.m, r.m);
  }

  lemma StepRefinesMap(s: System, c: Call)
    requires Inv(s.m, s.held) && Allowed(s, c)
    ensures var r := Perform(s, c); Inv(r.m, r.held) && Translations(r.m) == Intended(Translations(s.m), [c])
  {
    if c.Map? {
      MapPageRebindsOnePage(s.m, s.held, c.phys, c.virt, c.flags);
    } else {
      ClientStepKeepsTables(s, c);
    }
  }

  /** Over every allowed run the tables stay sound and walking them is the plain map of the calls. */
  lemma {:induction false} RunRefinesMap(s: System, cs: seq<Call>)
    requires Inv(s.m, s.held) && AllowedRun(s, cs)
    ensures var r := PerformAll(s, cs);
            Inv(r.m, r.held) && Translations(r.m) == Intended(Translations(s.m), cs)
    decreases |cs|
  {
    if cs != [] {
      StepRefinesMap(s, cs[0]);
      RunRefinesMap(Perform(s, cs[0]), cs[1..]);
    }
  }

  /** The same from boot: the identity on the first 4 MB, rebound by exactly the calls made since. */
  lemma RunFromBoot(mem: Memory, pages: Allocator, cs: seq<Call>)
    requires |mem| == MEMORY_WORDS && pages.Valid() && 0 !in pages.free && pages.free != {}
    ensures var s := System(InitTables(mem, pages), {});
            AllowedRun(s, cs) ==>
              var r := PerformAll(s, cs);
              Inv(r.m, r.held) && Translations(r.m) == Intended(IdentityMap(), cs)
  {
    hide InitTables, AllowedRun, PerformAll, Inv;
    InitTablesIsIdentity(mem, pages, {});
    var s := System(InitTables(mem, pages), {});
    if AllowedRun(s, cs) {
      RunRefinesMap(s, cs);
    }
  }

  // ---------------------------------------------------------------- the code

  /** The static state of vmm.c on a machine with 4 GB of physical address space. */
  class AddressSpace {
    const mem: array<uint32>
    const allocator: BitmapAllocator
    var currentDirectory: uint32

    ghost predicate Valid()
      reads this, mem, allocator, allocator.bitmap
    {
      && mem.Length == MEMORY_WORDS
      && allocator.Valid()
      && (mem as object) != allocator.bitmap
      && currentDirectory % PAGE_SIZE == 0
    }

    ghost function State(): (m: Machine)
      reads this, mem, allocator, allocator.bitmap
      requires Valid()
      ensures m.Valid()
    {
      Machine(mem[..], currentDirectory / PAGE_SIZE, allocator.Pages())
    }

    constructor (mem: array<uint32>, allocator: BitmapAllocator)
      requires mem.Length == MEMORY_WORDS && allocator.Valid() && (mem as object) != allocator.bitmap
      ensures Valid() && this.mem == mem && this.allocator == allocator && currentDirectory == 0
    {
      this.mem := mem;
      this.allocator := allocator;
      currentDirectory := 0;
    }

    /** memset(page, 0, PAGE_SIZE), a word at a time. */
    method ZeroPage(frame: nat)
      requires Valid() && frame < PAGE_COUNT
      modifies mem
      ensures Valid() && allocator.Pages() == old(allocator.Pages())
      ensures mem[..] == Zeroed(old(mem[..]), frame)
    {
      ghost var before := mem[..];
      var base := frame * ENTRIES;
      var i := 0;
      while i < ENTRIES
        invariant 0 <= i <= ENTRIES
        invariant forall k :: base <= k < base + i ==> mem[k] == 0
        invariant forall k :: 0 <= k < MEMORY_WORDS && !(base <= k < base + i) ==> mem[k] == before[k]
      {
        mem[base + i] := 0;
        i := i + 1;
      }
    }

    /** The four bit-field stores into one page-table entry. */
    method FillEntry(k: nat, frame: nat, writable: bool, user: bool)
      requires Valid() && k < MEMORY_WORDS && frame < PAGE_COUNT
      modifies mem
      ensures Valid() && allocator.Pages() == old(allocator.Pages())
      ensures var e := WithUser(WithWritable(WithPresent(WithFrame(old(mem[k]), frame)), writable), user);
              mem[..] == old(mem[..])[k := e]
    {
      mem[k] := WithFrame(mem[k], frame);
      mem[k] := WithPresent(mem[k]);
      mem[k] := WithWritable(mem[k], writable);
      mem[k] := WithUser(mem[k], user);
    }

    /** pmm_alloc_page followed by memset, as both operations do; an exhausted allocator clears frame 0. */
    method NewTable() returns (address: uint32)
      requires Valid()
      modifies mem, allocator, allocator.bitmap
      ensures Valid() && address % PAGE_SIZE == 0
      ensures (allocator.Pages(), address) == Allocate(old(allocator.Pages()))
      ensures mem[..] == Zeroed(old(mem[..]), address / PAGE_SIZE)
    {
      AllocateIsBounded(allocator.Pages());
      address := allocator.AllocPage();
      ZeroPage(address / PAGE_SIZE);
    }

    /** The loop of vmm_init over the 1024 entries of the first table. */
    method FillIdentity(table: nat)
      requires Valid() && table < PAGE_COUNT
      modifies mem
      ensures Valid() && allocator.Pages() == old(allocator.Pages())
      ensures mem[..] == IdentityTable(old(mem[..]), table, ENTRIES)
    {
      hide WithFrame, WithPresent, WithWritable, WithUser, FreePages, Frame, Present, Writable, User;
      var i := 0;
      while i < ENTRIES
        invariant 0 <= i <= ENTRIES && Valid() && allocator.Pages() == old(allocator.Pages())
        invariant mem[..] == IdentityTable(old(mem[..]), table, i)
      {
        FillEntry(table * ENTRIES + i, i, true, false);
        i := i + 1;
      }
    }

    /** vmm_init */
    method Init()
      requires Valid()
      modifies this, mem, allocator, allocator.bitmap
      ensures Valid() && State() == InitTables(old(mem[..]), old(allocator.Pages()))
    {
      hide Zeroed, IdentityTable, WithFrame, WithPresent, WithWritable, WithUser, WithoutLargePage, Allocate, FreePages;
      currentDirectory := NewTable();
      var dir := currentDirectory / PAGE_SIZE;
      var tableAddress := NewTable();
      FillIdentity(tableAddress / PAGE_SIZE);
      FillEntry(dir * ENTRIES, tableAddress / 4096, true, false);
      mem[dir * ENTRIES] := WithoutLargePage(mem[dir * ENTRIES]);
    }

    /** The first half of vmm_map_page: a table for the region exists afterwards. */
    method EnsureRegion(pd: nat, user: bool)
      requires Valid() && pd < ENTRIES
      modifies mem, allocator, allocator.bitmap
      ensures Valid() && State() == EnsureTable(old(State()), pd, user)
    {
      hide Zeroed, WithFrame, WithPresent, WithWritable, WithUser, Flags, Present, Allocate, FreePages;
      var dir := currentDirectory / PAGE_SIZE;
      if !Present(mem[dir * ENTRIES + pd]) {
        var tableAddress := NewTable();
        FillEntry(dir * ENTRIES + pd, tableAddress / 4096, true, user);
      }
    }

    /** vmm_map_page */
    method Map(phys: uint32, virt: uint32, flags: uint32) returns (r: uint32)
      requires Valid()
      modifies mem, allocator, allocator.bitmap
      ensures Valid() && r == virt && State() == MapPage(old(State()), phys, virt, flags)
    {
      hide WithFrame, WithPresent, WithWritable, WithUser, Flags, Frame, EnsureTable, FreePages;
      var dir := currentDirectory / PAGE_SIZE;
      var pd := virt / 4194304;
      var pt := virt / 4096 % ENTRIES;
      EnsureRegion(pd, flags / 2 % 2 == 1);
      var table := Frame(mem[dir * ENTRIES + pd]);
      FillEntry(table * ENTRIES + pt, phys / 4096, flags % 2 == 1, flags / 2 % 2 == 1);
      return virt;
    }
  }
}
