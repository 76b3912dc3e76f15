/**
 vmm_map_page of kernel/mm/vmm.c once vmm_enable has switched paging on: the code goes on using the frame
 numbers of directory and tables as addresses, so each of its accesses passes through the translation.
 */
module EnabledPaging {
  import opened Basics
  import opened PageAllocator
  import opened Paging
  import opened UserPages

  /** A kernel load from the page at the address of frame f reads frame f. */
  predicate LoadLands(m: Machine, f: nat)
    requires m.Valid() && f < PAGE_COUNT
  {
    Walk(m, f).Some? && Walk(m, f).value.frame == f
  }

  /** So does a store; without protect, the write-protect bit of CR0, the kernel may write to any mapped page. */
  predicate StoreLands(m: Machine, protect: bool, f: nat)
    requires m.Valid() && f < PAGE_COUNT
  {
    LoadLands(m, f) && (protect ==> WriteAccess(m, f))
  }

  /** The first n words of a memset on the page of frame f, None once a store does not land in it. */
  function PagedZero(m: Machine, protect: bool, f: nat, n: nat): (r: Option<Machine>)
    requires m.Valid() && f < PAGE_COUNT && n <= ENTRIES
    ensures r.Some? ==> r.value.Valid() && r.value.dir == m.dir
  {
    if n == 0 then Some(m) else
    match PagedZero(m, protect, f, n - 1)
    case None => None
    case Some(z) => if StoreLands(z, protect, f) then Some(z.(mem := Store(z.mem, f, n - 1, 0))) else None
  }

  /** The first half of vmm_map_page, None once an access does not land in the frame that is meant. */
  function PagedEnsureTable(m: Machine, protect: bool, pd: nat, user: bool): (r: Option<Machine>)
    requires m.Valid() && pd < ENTRIES
    ensures r.Some? ==> r.value.Valid() && r.value.dir == m.dir
  {
    if !LoadLands(m, m.dir) then None else
    if TablePresent(m, pd) then Some(m) else
    AllocateIsBounded(m.pages);
    var (pages, addr) := Allocate(m.pages);
    match PagedZero(m.(pages := pages), protect, addr / PAGE_SIZE, ENTRIES)
    case None => None
    case Some(z) =>
      if !StoreLands(z, protect, z.dir) then None else
      var pde := WithUser(WithWritable(WithPresent(WithFrame(Word(z.mem, z.dir, pd), addr / 4096)), true), user);
      Some(z.(mem := Store(z.mem, z.dir, pd, pde)))
  }

  /** vmm_map_page, None once an access does not land in the frame that is meant. */
  function PagedMapPage(m: Machine, protect: bool, phys: uint32, virt: uint32, flags: uint32): Option<Machine>
    requires m.Valid()
  {
    var pd, pt := virt / 4194304, virt / 4096 % ENTRIES;
    match PagedEnsureTable(m, protect, pd, flags / 2 % 2 == 1)
    case None => None
    case Some(e) =>
      if !LoadLands(e, e.dir) || !StoreLands(e, protect, Table(e, pd)) then None else
      var t := Table(e, pd);
      var pte := WithUser(WithWritable(WithPresent(WithFrame(Word(e.mem, t, pt), phys / 4096)),
                                       flags % 2 == 1), flags / 2 % 2 == 1);
      Some(e.(mem := Store(e.mem, t, pt, pte)))
  }

  /** The frame of the table a call works on: the present one, or the page that is allocated for it. */
  function TableToUse(m: Machine, pd: nat): (t: nat)
    requires m.Valid() && pd < ENTRIES
    ensures t < PAGE_COUNT
  {
    AllocateIsBounded(m.pages);
    if TablePresent(m, pd) then Table(m, pd) else Allocate(m.pages).1 / PAGE_SIZE
  }

  /** Directory and table are mapped onto themselves, writably if the bit is enforced and they are written to. */
  predicate TablesAreReachable(m: Machine, protect: bool, pd: nat)
    requires m.Valid() && pd < ENTRIES
  {
    && LoadLands(m, m.dir) && StoreLands(m, protect, TableToUse(m, pd))
    && (!TablePresent(m, pd) ==> StoreLands(m, protect, m.dir))
  }

  // ---------------------------------------------------------------- accesses along one call

  lemma WriteAccessIsLeaf(m: Machine, held: set<nat>, v: nat)
    requires Inv(m, held) && v < PAGE_COUNT
    ensures WriteAccess(m, v) <==> Walk(m, v).Some? && Walk(m, v).value.writable
  {
    hide Word, Present, Writable;
  }

  /** Where accesses land depends on the walk alone. */
  lemma SameWalkSameLanding(m: Machine, r: Machine, held: set<nat>, kept: set<nat>, protect: bool, f: nat)
    requires Inv(m, held) && Inv(r, kept) && f < PAGE_COUNT && Walk(r, f) == Walk(m, f)
    ensures LoadLands(r, f) == LoadLands(m, f) && StoreLands(r, protect, f) == StoreLands(m, protect, f)
  {
    hide Inv, Walk, WriteAccess;
    assert m.Valid() && r.Valid() by { InvIsMachine(m, held); InvIsMachine(r, kept); }
    WriteAccessIsLeaf(m, held, f);
    WriteAccessIsLeaf(r, kept, f);
  }

  /** The memory after the first n words of frame f are cleared. */
  ghost predicate ZeroedUpTo(r: Memory, mem: Memory, f: nat, n: nat)
    requires |mem| == |r| == MEMORY_WORDS && f < PAGE_COUNT
  {
    forall g: nat, j: nat :: g < PAGE_COUNT && j < ENTRIES ==>
      Word(r, g, j) == if g == f && j < n then 0 else Word(mem, g, j)
  }

  lemma StoreKeepsTableFrames(m: Machine, held: set<nat>, f: nat, i: nat, w: uint32)
    requires Inv(m, held) && f < PAGE_COUNT && i < ENTRIES && !TableFrame(m, f)
    ensures var r := m.(mem := Store(m.mem, f, i, w));
            && !TableFrame(r, f)
            && forall j: nat :: j < ENTRIES ==> TablePresent(r, j) == TablePresent(m, j) && Table(r, j) == Table(m, j)
  {
    hide Flags, Frame, Present, Word, Store;
    var r := m.(mem := Store(m.mem, f, i, w));
    forall j: nat | j < ENTRIES
      ensures TablePresent(r, j) == TablePresent(m, j) && Table(r, j) == Table(m, j)
    {
      assert Word(r.mem, r.dir, j) == Word(m.mem, m.dir, j);
    }
  }

  lemma NothingZeroed(mem: Memory, f: nat)
    requires |mem| == MEMORY_WORDS && f < PAGE_COUNT
    ensures ZeroedUpTo(mem, mem, f, 0)
  {
  }

  lemma ZeroNextWord(z: Memory, mem: Memory, f: nat, n: nat)
    requires |mem| == |z| == MEMORY_WORDS && f < PAGE_COUNT && n < ENTRIES && ZeroedUpTo(z, mem, f, n)
    ensures ZeroedUpTo(Store(z, f, n, 0), mem, f, n + 1)
  {
    hide Word, Store;
  }

  /** z is m after the first n words of frame f, which holds no table, are cleared. */
  ghost predicate ClearedFrom(m: Machine, z: Machine, held: set<nat>, f: nat, n: nat)
    requires m.Valid() && f < PAGE_COUNT
  {
    && Inv(z, held) && z == m.(mem := z.mem) && ZeroedUpTo(z.mem, m.mem, f, n) && !TableFrame(z, f)
    && forall v: nat :: v < PAGE_COUNT ==> Walk(z, v) == Walk(m, v)
  }

  lemma ClearNextWord(m: Machine, z: Machine, held: set<nat>, f: nat, n: nat)
    requires m.Valid() && f < PAGE_COUNT && n < ENTRIES && ClearedFrom(m, z, held, f, n)
    ensures ClearedFrom(m, z.(mem := Store(z.mem, f, n, 0)), held, f, n + 1)
  {
    InvIsMachine(z, held);
    hide Word, Store, Walk, Inv, TableFrame, ZeroedUpTo, UserWritable, Translations;
    StoreElsewhereKeepsTables(z, held, f, n, 0);
    StoreKeepsTableFrames(z, held, f, n, 0);
    ZeroNextWord(z.mem, m.mem, f, n);
  }

  lemma ClearedLands(m: Machine, z: Machine, held: set<nat>, protect: bool, f: nat, n: nat, g: nat)
    requires Inv(m, held) && f < PAGE_COUNT && g < PAGE_COUNT && ClearedFrom(m, z, held, f, n)
    ensures z.Valid() && StoreLands(z, protect, g) == StoreLands(m, protect, g)
  {
    InvIsMachine(z, held);
    hide Walk, Inv, StoreLands, TableFrame, ZeroedUpTo;
    SameWalkSameLanding(m, z, held, held, protect, g);
  }

  /** Clearing n words goes through exactly if the frame is reached beforehand. */
  ghost predicate ClearsIff(m: Machine, held: set<nat>, protect: bool, f: nat, n: nat)
    requires m.Valid() && f < PAGE_COUNT && n <= ENTRIES
  {
    match PagedZero(m, protect, f, n)
    case None => n > 0 && !StoreLands(m, protect, f)
    case Some(z) => (n == 0 || StoreLands(m, protect, f)) && ClearedFrom(m, z, held, f, n)
  }

  lemma ClearOneMore(m: Machine, held: set<nat>, protect: bool, f: nat, n: nat)
    requires Inv(m, held) && f < PAGE_COUNT && n < ENTRIES && ClearsIff(m, held, protect, f, n)
    ensures ClearsIff(m, held, protect, f, n + 1)
  {
    InvIsMachine(m, held);
    hide Word, Store, StoreLands, ClearedFrom, Inv;
    match PagedZero(m, protect, f, n)
    case None =>
    case Some(z) =>
      ClearedLands(m, z, held, protect, f, n, f);
      ClearNextWord(m, z, held, f, n);
  }

  lemma ClearNone(m: Machine, held: set<nat>, protect: bool, f: nat)
    requires Inv(m, held) && f < PAGE_COUNT && !TableFrame(m, f)
    ensures ClearsIff(m, held, protect, f, 0)
  {
    InvIsMachine(m, held);
    hide Inv, TableFrame, Word;
    NothingZeroed(m.mem, f);
    assert ClearedFrom(m, m, held, f, 0);
    hide ClearedFrom;
  }

  /** Clearing a frame without a table goes through exactly if the frame is reached beforehand. */
  lemma {:induction false} PagedZeroIff(m: Machine, held: set<nat>, protect: bool, f: nat, n: nat)
    requires Inv(m, held) && f < PAGE_COUNT && n <= ENTRIES && !TableFrame(m, f)
    ensures ClearsIff(m, held, protect, f, n)
    decreases n
  {
    hide *;
    InvIsMachine(m, held);
    if n == 0 {
      ClearNone(m, held, protect, f);
    } else {
      PagedZeroIff(m, held, protect, f, n - 1);
      ClearOneMore(m, held, protect, f, n - 1);
    }
  }

  lemma ZeroedUpToAll(r: Memory, mem: Memory, f: nat)
    requires |mem| == |r| == MEMORY_WORDS && f < PAGE_COUNT && ZeroedUpTo(r, mem, f, ENTRIES)
    ensures r == Zeroed(mem, f)
  {
    hide Zeroed;
    var z := Zeroed(mem, f);
    forall k: nat | k < MEMORY_WORDS
      ensures r[k] == z[k]
    {
      assert k == k / ENTRIES * ENTRIES + k % ENTRIES && k / ENTRIES < PAGE_COUNT;
      assert Word(r, k / ENTRIES, k % ENTRIES) == Word(z, k / ENTRIES, k % ENTRIES);
    }
  }

  /** The page for a new table is used by nobody, and taking it from the allocator changes no walk. */
  lemma NewTableIsFresh(m: Machine, held: set<nat>, pd: nat)
    requires Inv(m, held) && pd < ENTRIES && !TablePresent(m, pd)
    requires m.pages.free != {} || !FrameZeroInUse(m)
    ensures var pages := Allocate(m.pages).0;
            var a := m.(pages := pages);
            && pages.Valid() && Inv(a, held) && !TableFrame(a, TableToUse(m, pd))
            && forall v: nat :: v < PAGE_COUNT ==> Walk(a, v) == Walk(m, v)
  {
    hide Flags, Frame, Present, Writable, User, LargePage, Word;
    NextFitIsNearest(m.pages);
    AllocateIsBounded(m.pages);
    var a := m.(pages := Allocate(m.pages).0);
    SameMemorySameAccess(m, a);
    forall i: nat | i < ENTRIES
      ensures TablePresent(a, i) == TablePresent(m, i) && Table(a, i) == Table(m, i)
    {
    }
    assert a.pages.free <= m.pages.free;
  }

  /** The first half of the call goes through exactly if directory and new table are reached beforehand. */
  lemma PagedEnsureTableIff(m: Machine, held: set<nat>, protect: bool, pd: nat, user: bool)
    requires Inv(m, held) && pd < ENTRIES
    requires TablePresent(m, pd) || m.pages.free != {} || !FrameZeroInUse(m)
    ensures PagedEnsureTable(m, protect, pd, user)
         == if LoadLands(m, m.dir)
               && (!TablePresent(m, pd) ==> StoreLands(m, protect, TableToUse(m, pd)) && StoreLands(m, protect, m.dir))
            then Some(EnsureTable(m, pd, user)) else None
  {
    InvIsMachine(m, held);
    hide Flags, Frame, Present, Word, Store, Zeroed, Walk, Inv, LoadLands, StoreLands, TableFrame, TablePresent;
    hide WithFrame, WithPresent, WithWritable, WithUser, FrameZeroInUse;
    if LoadLands(m, m.dir) && !TablePresent(m, pd) {
      NewTableIsFresh(m, held, pd);
      var a := m.(pages := Allocate(m.pages).0);
      var t := TableToUse(m, pd);
      PagedZeroIff(a, held, protect, t, ENTRIES);
      SameWalkSameLanding(m, a, held, held, protect, t);
      if StoreLands(m, protect, t) {
        var z := PagedZero(a, protect, t, ENTRIES).value;
        ZeroedUpToAll(z.mem, m.mem, t);
        SameWalkSameLanding(m, z, held, held, protect, m.dir);
      }
    }
  }

  // ---------------------------------------------------------------- the call

  /** With paging on, a call's accesses all land exactly if directory and table are mapped onto themselves. */
  lemma PagedMapPageIff(m: Machine, held: set<nat>, protect: bool, phys: uint32, virt: uint32, flags: uint32)
    requires Inv(m, held) && RoomFor(m, virt)
    ensures PagedMapPage(m, protect, phys, virt, flags)
         == if TablesAreReachable(m, protect, virt / 4194304) then Some(MapPage(m, phys, virt, flags)) else None
  {
    InvIsMachine(m, held);
    hide Flags, Frame, Present, Word, Store, Walk, Inv, LoadLands, StoreLands, TablePresent, EnsureTable;
    hide FrameZeroInUse;
    hide WithFrame, WithPresent, WithWritable, WithUser;
    var pd, user := virt / 4194304, flags / 2 % 2 == 1;
    PagedEnsureTableIff(m, held, protect, pd, user);
    EnsureTableKeeps(m, held, pd, user);
    var e := EnsureTable(m, pd, user);
    TableIsTheOneToUse(m, pd, user);
    SameWalkSameLanding(m, e, held, held, protect, m.dir);
    SameWalkSameLanding(m, e, held, held, protect, TableToUse(m, pd));
  }

  lemma TableIsTheOneToUse(m: Machine, pd: nat, user: bool)
    requires m.Valid() && pd < ENTRIES
    ensures Table(EnsureTable(m, pd, user), pd) == TableToUse(m, pd)
  {
    hide Flags, Frame, Present, Word, Store, Zeroed, TablePresent, WithFrame, WithPresent, WithWritable, WithUser;
    AllocateIsBounded(m.pages);
  }

  // ---------------------------------------------------------------- from boot

  /** The first new region after vmm_init: its mapping goes through exactly if directory and table lie below 4 MB. */
  lemma FirstPagedMapIff(mem: Memory, pages: Allocator, protect: bool, phys: uint32, virt: uint32, flags: uint32)
    requires |mem| == MEMORY_WORDS && pages.Valid() && 0 !in pages.free && pages.free != {}
    requires virt >= 4194304 && RoomFor(InitTables(mem, pages), virt)
    ensures var m := InitTables(mem, pages);
            PagedMapPage(m, protect, phys, virt, flags).Some?
            <==> m.dir < ENTRIES && TableToUse(m, virt / 4194304) < ENTRIES
  {
    hide InitTables, Inv, MapPage, PagedMapPage, TablePresent, RoomFor, Walk, WriteAccess, TableToUse;
    InitTablesIsIdentity(mem, pages, {});
    var m := InitTables(mem, pages);
    PagedMapPageIff(m, {}, protect, phys, virt, flags);
    IdentityLands(m, {}, protect, m.dir);
    IdentityLands(m, {}, protect, TableToUse(m, virt / 4194304));
  }

  lemma IdentityLands(m: Machine, held: set<nat>, protect: bool, f: nat)
    requires Inv(m, held) && f < PAGE_COUNT && Translations(m) == IdentityMap()
    ensures (LoadLands(m, f) <==> f < ENTRIES) && (StoreLands(m, protect, f) <==> f < ENTRIES)
  {
    hide Walk, WriteAccess, Inv;
    InvIsMachine(m, held);
    WriteAccessIsLeaf(m, held, f);
    assert f in Translations(m) <==> f in IdentityMap();
  }

  /** With 8 MB, and pages 258 to 1023 in use, the mapping of a page at 4 MB is the first to fault. */
  lemma PagedMapFaults(mem: Memory, protect: bool, phys: uint32, flags: uint32)
    requires |mem| == MEMORY_WORDS
    ensures PagedMapPage(InitTables(mem, Allocator({256, 257, 1024}, 0)), protect, phys, 0x40_0000, flags) == None
  {
    hide InitTables, Inv, MapPage, PagedMapPage, Walk, WriteAccess, FirstFree;
    var boot := Allocator({256, 257, 1024}, 0);
    NextFitIs(boot, 256);
    assert {256, 257, 1024} - {256} == {257, 1024};
    NextFitIs(Allocator({257, 1024}, 257), 257);
    assert {257, 1024} - {257} == {1024};
    NextFitIs(Allocator({1024}, 258), 1024);
    InitTablesIsIdentity(mem, boot, {});
    InitTablesPages(mem, boot);
    FirstPagedMapIff(mem, boot, protect, phys, 0x40_0000, flags);
  }

  lemma InitTablesPages(mem: Memory, pages: Allocator)
    requires |mem| == MEMORY_WORDS && pages.Valid()
    ensures Allocate(pages).0.Valid() && InitTables(mem, pages).pages == Allocate(Allocate(pages).0).0
  {
    hide Zeroed, IdentityTable, Store, Word, Allocate;
    AllocateIsBounded(pages);
  }

  /** Everything lies below 4 MB, and the first 4 MB are mapped onto themselves. */
  ghost predicate Low(s: System)
    requires s.m.Valid()
  {
    && s.m.dir < ENTRIES
    && (forall i: nat :: i < ENTRIES && TablePresent(s.m, i) ==> Table(s.m, i) < ENTRIES)
    && (forall p <- s.m.pages.free :: p < ENTRIES)
    && (forall p <- s.held :: p < ENTRIES)
    && (forall f: nat :: f < ENTRIES ==> Walk(s.m, f) == Some(Mapping(f, true, false)))
  }

  /** After a call every table is one that was there before or the one the call used. */
  lemma MapPageTables(m: Machine, held: set<nat>, phys: uint32, virt: uint32, flags: uint32, i: nat)
    requires Inv(m, held) && RoomFor(m, virt) && i < ENTRIES
    ensures var r := MapPage(m, phys, virt, flags);
            && (TablePresent(r, i) ==> Table(r, i) == if TablePresent(m, i) then Table(m, i)
                                                      else TableToUse(m, virt / 4194304))
            && r.pages.free <= m.pages.free
  {
    hide Flags, Frame, Present, Writable, User, LargePage, Word, Store, Zeroed;
    hide WithFrame, WithPresent, WithWritable, WithUser;
    NextFitIsNearest(m.pages);
    AllocateIsBounded(m.pages);
    EnsureTableKeeps(m, held, virt / 4194304, flags / 2 % 2 == 1);
  }

  lemma LowTableToUse(s: System, pd: nat)
    requires Inv(s.m, s.held) && Low(s) && pd < ENTRIES
    ensures TableToUse(s.m, pd) < ENTRIES
  {
    hide Walk, TablePresent, Table;
    NextFitIsNearest(s.m.pages);
  }

  lemma LowLands(s: System, protect: bool, f: nat)
    requires Inv(s.m, s.held) && Low(s) && f < ENTRIES
    ensures LoadLands(s.m, f) && StoreLands(s.m, protect, f)
  {
    hide Walk, WriteAccess, TablePresent, Table, Inv;
    InvIsMachine(s.m, s.held);
    WriteAccessIsLeaf(s.m, s.held, f);
  }

  /** On such a machine a call for an address above 4 MB reaches all its frames and keeps it so. */
  lemma LowMapLands(s: System, protect: bool, phys: uint32, virt: uint32, flags: uint32)
    requires Inv(s.m, s.held) && Low(s) && RoomFor(s.m, virt) && virt >= 4194304
    ensures PagedMapPage(s.m, protect, phys, virt, flags) == Some(MapPage(s.m, phys, virt, flags))
    ensures Low(s.(m := MapPage(s.m, phys, virt, flags)))
  {
    hide Walk, WriteAccess, TablePresent, Table, MapPage, PagedMapPage, TableToUse, Inv, RoomFor, LoadLands, StoreLands;
    InvIsMachine(s.m, s.held);
    var pd := virt / 4194304;
    LowTableToUse(s, pd);
    LowLands(s, protect, s.m.dir);
    LowLands(s, protect, TableToUse(s.m, pd));
    PagedMapPageIff(s.m, s.held, protect, phys, virt, flags);
    var r := MapPage(s.m, phys, virt, flags);
    MapPageTables(s.m, s.held, phys, virt, flags, 0);
    forall i: nat | i < ENTRIES && TablePresent(r, i)
      ensures Table(r, i) < ENTRIES
    {
      MapPageTables(s.m, s.held, phys, virt, flags, i);
    }
    forall f: nat | f < ENTRIES
      ensures Walk(r, f) == Some(Mapping(f, true, false))
    {
      MapGrantsOnePage(s.m, s.held, phys, virt, flags, f);
    }
  }

  lemma LowClientStep(s: System, c: Call)
    requires Inv(s.m, s.held) && Low(s) && Allowed(s, c) && !c.Map?
    ensures Low(Perform(s, c))
  {
    hide Walk, TablePresent, Table, Word, Store, UserWritable, TableFrame, Translations;
    NextFitIsNearest(s.m.pages);
    var r := Perform(s, c);
    match c
    case WriteWord(p, i, w) =>
      HeldIsNoTable(s, p);
      StoreElsewhereKeepsTables(s.m, s.held, p, i, w);
      StoreKeepsTableFrames(s.m, s.held, p, i, w);
    case _ =>
      SameMemorySameAccess(s.m, r.m);
      SameMemorySameTables(s.m, r.m);
  }

  // ---------------------------------------------------------------- runs

  /** A client's or kernel's step with paging on, None once an access does not land where it is meant to. */
  ghost function PagedPerform(s: System, protect: bool, c: Call): (r: Option<System>)
    requires s.m.Valid() && Allowed(s, c)
  {
    match c
    case Map(phys, virt, flags) =>
      (match PagedMapPage(s.m, protect, phys, virt, flags)
       case None => None
       case Some(m) => Some(s.(m := m)))
    case _ => Some(Perform(s, c))
  }

  /** Calls are allowed, and none rebinds a page of the first 4 MB. */
  ghost predicate HighRun(s: System, cs: seq<Call>)
    requires s.m.Valid()
  {
    AllowedRun(s, cs) && forall c <- cs :: c.Map? ==> c.virt >= 4194304
  }

  /** Each step of the run, carried out with paging on, is the step carried out on the frames themselves. */
  ghost predicate StepsLand(s: System, protect: bool, cs: seq<Call>)
    requires s.m.Valid() && AllowedRun(s, cs)
    decreases |cs|
  {
    cs != [] ==>
      && PagedPerform(s, protect, cs[0]) == Some(Perform(s, cs[0]))
      && StepsLand(Perform(s, cs[0]), protect, cs[1..])
  }

  lemma LowStep(s: System, protect: bool, c: Call)
    requires Inv(s.m, s.held) && Low(s) && Allowed(s, c) && (c.Map? ==> c.virt >= 4194304)
    ensures PagedPerform(s, protect, c) == Some(Perform(s, c)) && Low(Perform(s, c))
  {
    if c.Map? {
      hide Low, Inv, MapPage, PagedMapPage, RoomFor;
      LowMapLands(s, protect, c.phys, c.virt, c.flags);
    } else {
      hide Low, Inv, Perform, Allowed;
      LowClientStep(s, c);
    }
  }

  /** On such a machine every access of every call of such a run reaches its frame. */
  lemma {:induction false} LowRunLands(s: System, protect: bool, cs: seq<Call>)
    requires Inv(s.m, s.held) && Low(s) && HighRun(s, cs)
    ensures StepsLand(s, protect, cs)
    decreases |cs|
  {
    hide Inv, Low, Allowed, Perform, PagedPerform, Translations, Intended;
    InvIsMachine(s.m, s.held);
    if cs != [] {
      LowStep(s, protect, cs[0]);
      StepRefinesMap(s, cs[0]);
      LowRunLands(Perform(s, cs[0]), protect, cs[1..]);
    }
  }

  /** From boot, with no memory above 4 MB: switching paging on after vmm_init changes nothing for such runs. */
  lemma LowRunFromBoot(mem: Memory, pages: Allocator, protect: bool, cs: seq<Call>)
    requires |mem| == MEMORY_WORDS && pages.Valid() && 0 !in pages.free && pages.free != {}
    requires forall p <- pages.free :: p < ENTRIES
    ensures var s := System(InitTables(mem, pages), {}); HighRun(s, cs) ==> StepsLand(s, protect, cs)
  {
    hide Inv, Low, HighRun, StepsLand, InitTables, Translations, TablePresent;
    InitTablesIsLow(mem, pages);
    InitTablesIsIdentity(mem, pages, {});
    var s := System(InitTables(mem, pages), {});
    if HighRun(s, cs) {
      LowRunLands(s, protect, cs);
    }
  }

  lemma InitTablesIsLow(mem: Memory, pages: Allocator)
    requires |mem| == MEMORY_WORDS && pages.Valid() && 0 !in pages.free && pages.free != {}
    requires forall p <- pages.free :: p < ENTRIES
    ensures Low(System(InitTables(mem, pages), {}))
  {
    hide Flags, Frame, Present, Writable, User, LargePage, Word, Store, Zeroed, IdentityTable, Walk;
    hide WithFrame, WithPresent, WithWritable, WithUser, WithoutLargePage;
    InitTablesIsIdentity(mem, pages, {});
    NextFitIsNearest(pages);
    var pages1 := Allocate(pages).0;
    AllocateIsBounded(pages);
    AllocateIsBounded(pages1);
    NextFitIsNearest(pages1);
    var m := InitTables(mem, pages);
    forall f: nat | f < ENTRIES
      ensures Walk(m, f) == Some(Mapping(f, true, false))
    {
      assert f in IdentityMap() && f in Translations(m);
    }
  }
}
