/**
 Writes made through the mappings of kernel/mm/vmm.c by code without privilege: when they can change the
 tables themselves, and what the kernel must do to prevent it.
 */
module UserPages {
  import opened Basics
  import opened PageAllocator
  import opened Paging

  /** Code without privilege may write to the page. */
  predicate UserWritable(m: Machine, vpn: nat)
    requires m.Valid() && vpn < PAGE_COUNT
  {
    UserAccess(m, vpn) && WriteAccess(m, vpn)
  }

  /** The processor stores a word through a user-writable mapping and faults otherwise. */
  function UserStore(m: Machine, vpn: nat, i: nat, w: uint32): (r: Machine)
    requires m.Valid() && vpn < PAGE_COUNT && i < ENTRIES
    ensures r.Valid()
  {
    if UserWritable(m, vpn) then m.(mem := Store(m.mem, Walk(m, vpn).value.frame, i, w)) else m
  }

  /** The directory or a present table lies in frame f. */
  ghost predicate TableFrame(m: Machine, f: nat)
    requires m.Valid()
  {
    f == m.dir || exists i: nat :: i < ENTRIES && TablePresent(m, i) && Table(m, i) == f
  }

  // ---------------------------------------------------------------- which frames matter

  lemma StoreElsewhereKeepsTables(m: Machine, held: set<nat>, f: nat, i: nat, w: uint32)
    requires Inv(m, held) && f < PAGE_COUNT && i < ENTRIES && !TableFrame(m, f)
    ensures var r := m.(mem := Store(m.mem, f, i, w));
            && Inv(r, held) && Translations(r) == Translations(m)
            && forall v: nat :: v < PAGE_COUNT ==>
                 UserWritable(r, v) == UserWritable(m, v) && Walk(r, v) == Walk(m, v)
  {
    hide Flags, Frame, Present, Writable, User, LargePage, Word, Store;
    var r := m.(mem := Store(m.mem, f, i, w));
    forall j: nat | j < ENTRIES
      ensures Word(r.mem, r.dir, j) == Word(m.mem, m.dir, j)
      ensures TablePresent(r, j) == TablePresent(m, j) && Table(r, j) == Table(m, j)
    {
    }
    SameTablesSameWalk(m, r);
  }

  lemma FirstPageOf(pd: nat)
    requires pd < ENTRIES
    ensures pd * ENTRIES < PAGE_COUNT && pd * ENTRIES / ENTRIES == pd && pd * ENTRIES % ENTRIES == 0
  {
  }

  lemma PresentWords(f: nat)
    requires f < PAGE_COUNT
    ensures Present(Entry(f, 1)) && Frame(Entry(f, 1)) == f && !Present(0)
  {
  }

  /** In a table frame there is always a store to word 0 that maps or unmaps a page. */
  lemma StoreInTableMatters(m: Machine, held: set<nat>, f: nat) returns (w: uint32)
    requires Inv(m, held) && TableFrame(m, f)
    ensures f < PAGE_COUNT && Translations(m.(mem := Store(m.mem, f, 0, w))) != Translations(m)
  {
    hide Flags, Frame, Present, Writable, User, LargePage, Word, Store, Entry;
    PresentWords(f);
    var pd: nat := 0;
    if f != m.dir {
      pd :| pd < ENTRIES && TablePresent(m, pd) && Table(m, pd) == f;
    }
    FirstPageOf(pd);
    var v := pd * ENTRIES;
    w := if Walk(m, v).Some? then 0 else Entry(f, 1);
    var r := m.(mem := Store(m.mem, f, 0, w));
    assert Walk(r, v).Some? != Walk(m, v).Some?;
    assert v in Translations(r) <==> v !in Translations(m);
  }

  /** The frames to which nothing can be written that changes a translation are exactly those without a table. */
  lemma StoresAreHarmlessIff(m: Machine, held: set<nat>, f: nat)
    requires Inv(m, held) && f < PAGE_COUNT
    ensures (forall i: nat, w: uint32 :: i < ENTRIES ==>
               Translations(m.(mem := Store(m.mem, f, i, w))) == Translations(m))
            <==> !TableFrame(m, f)
  {
    assert m.Valid();
    hide Translations, Store, Inv;
    if TableFrame(m, f) {
      var w := StoreInTableMatters(m, held, f);
    } else {
      forall i: nat, w: uint32 | i < ENTRIES
        ensures Translations(m.(mem := Store(m.mem, f, i, w))) == Translations(m)
      {
        StoreElsewhereKeepsTables(m, held, f, i, w);
      }
    }
  }

  /** User code can change no translation exactly if none of its writable mappings reaches a table frame. */
  lemma UserStoresAreHarmlessIff(m: Machine, held: set<nat>)
    requires Inv(m, held)
    ensures (forall v: nat, i: nat, w: uint32 :: v < PAGE_COUNT && i < ENTRIES ==>
               Translations(UserStore(m, v, i, w)) == Translations(m))
            <==> (forall v: nat :: v < PAGE_COUNT && UserWritable(m, v) ==> !TableFrame(m, Walk(m, v).value.frame))
  {
    assert m.Valid();
    hide Translations, Store, Inv, TableFrame, UserWritable, Walk, UserStore;
    forall v: nat | v < PAGE_COUNT
      ensures UserWritable(m, v) ==>
                ((forall i: nat, w: uint32 :: i < ENTRIES ==> Translations(UserStore(m, v, i, w)) == Translations(m))
                 <==> !TableFrame(m, Walk(m, v).value.frame))
      ensures !UserWritable(m, v) ==> forall i: nat, w: uint32 :: i < ENTRIES ==> UserStore(m, v, i, w) == m
    {
      PageIsHarmlessIff(m, held, v);
    }
  }

  lemma PageIsHarmlessIff(m: Machine, held: set<nat>, v: nat)
    requires Inv(m, held) && v < PAGE_COUNT
    ensures UserWritable(m, v) ==>
              Walk(m, v).Some? &&
              ((forall i: nat, w: uint32 :: i < ENTRIES ==> Translations(UserStore(m, v, i, w)) == Translations(m))
               <==> !TableFrame(m, Walk(m, v).value.frame))
    ensures !UserWritable(m, v) ==> forall i: nat, w: uint32 :: i < ENTRIES ==> UserStore(m, v, i, w) == m
  {
    assert m.Valid();
    hide Translations, Store, Inv, TableFrame;
    if UserWritable(m, v) {
      var f := Walk(m, v).value.frame;
      StoresAreHarmlessIff(m, held, f);
      forall i: nat, w: uint32 | i < ENTRIES
        ensures UserStore(m, v, i, w) == m.(mem := Store(m.mem, f, i, w))
      {
      }
    }
  }

  // ---------------------------------------------------------------- what the kernel has to keep

  /** User code can write to held pages only. */
  ghost predicate Confined(s: System)
    requires s.m.Valid()
  {
    forall v: nat :: v < PAGE_COUNT && UserWritable(s.m, v) ==> Walk(s.m, v).value.frame in s.held
  }

  /** The call makes its page user-writable: it asks for both bits, and the region is open to user code. */
  predicate GrantsUserWrite(m: Machine, phys: uint32, virt: uint32, flags: uint32)
    requires m.Valid()
  {
    && Requested(phys, flags).writable && Requested(phys, flags).user
    && (TablePresent(m, virt / 4194304) ==> User(Word(m.mem, m.dir, virt / 4194304)))
  }

  /** Grant user code held pages only, and free a page only once user code cannot write to it. */
  ghost predicate Careful(s: System, c: Call)
    requires s.m.Valid()
  {
    match c
    case Map(phys, virt, flags) => GrantsUserWrite(s.m, phys, virt, flags) ==> phys / 4096 in s.held
    case TakePage => true
    case GivePage(p) => forall v: nat :: v < PAGE_COUNT && UserWritable(s.m, v) ==> Walk(s.m, v).value.frame != p
    case WriteWord(_, _, _) => true
  }

  lemma MapKeepsDirectory(m: Machine, held: set<nat>, phys: uint32, virt: uint32, flags: uint32)
    requires Inv(m, held) && RoomFor(m, virt)
    ensures var r := MapPage(m, phys, virt, flags);
            forall i: nat :: i < ENTRIES && TablePresent(m, i) ==> Word(r.mem, r.dir, i) == Word(m.mem, m.dir, i)
  {
    hide Flags, Frame, Present, Writable, User, LargePage, Word, Store, Zeroed;
    hide WithFrame, WithPresent, WithWritable, WithUser;
    EnsureTableKeeps(m, held, virt / 4194304, flags / 2 % 2 == 1);
    AllocateIsBounded(m.pages);
    NextFitIsNearest(m.pages);
  }

  /** A call makes its own page user-writable or not, as GrantsUserWrite says, and changes this for no other page. */
  lemma MapGrantsOnePage(m: Machine, held: set<nat>, phys: uint32, virt: uint32, flags: uint32, v: nat)
    requires Inv(m, held) && RoomFor(m, virt) && v < PAGE_COUNT
    ensures var r := MapPage(m, phys, virt, flags);
            if v == VirtualPage(virt)
            then (UserWritable(r, v) <==> GrantsUserWrite(m, phys, virt, flags))
                 && Walk(r, v) == Some(Requested(phys, flags))
            else UserWritable(r, v) == UserWritable(m, v) && Walk(r, v) == Walk(m, v)
  {
    hide Flags, Present, Writable, User, LargePage, Word, MapPage, Walk, VirtualPage;
    var r := MapPage(m, phys, virt, flags);
    MapPageRebindsOnePage(m, held, phys, virt, flags);
    assert v in Translations(m) <==> Walk(m, v).Some?;
    assert v in Translations(r) <==> Walk(r, v).Some?;
    if v == VirtualPage(virt) {
      UserRequestIsHonouredIff(m, held, phys, virt, flags);
      WriteRequestIsHonoured(m, held, phys, virt, flags);
    } else {
      assert Walk(r, v) == Walk(m, v);
      MapKeepsDirectory(m, held, phys, virt, flags);
      MappedNeedsTable(m, v);
      MappedNeedsTable(r, v);
    }
  }

  lemma MappedNeedsTable(m: Machine, v: nat)
    requires m.Valid() && v < PAGE_COUNT
    ensures Walk(m, v).Some? ==> TablePresent(m, v / ENTRIES)
  {
  }

  lemma HeldIsNoTable(s: System, f: nat)
    requires Inv(s.m, s.held) && f in s.held
    ensures f < PAGE_COUNT && !TableFrame(s.m, f)
  {
    hide Word;
  }

  lemma MapStaysConfinedIff(s: System, phys: uint32, virt: uint32, flags: uint32)
    requires Inv(s.m, s.held) && Confined(s) && RoomFor(s.m, virt)
    ensures Confined(s.(m := MapPage(s.m, phys, virt, flags)))
            <==> (GrantsUserWrite(s.m, phys, virt, flags) ==> phys / 4096 in s.held)
  {
    assert s.m.Valid();
    hide UserWritable, MapPage, Walk, GrantsUserWrite, Inv, RoomFor;
    var r := MapPage(s.m, phys, virt, flags);
    forall v: nat | v < PAGE_COUNT && v != VirtualPage(virt)
      ensures UserWritable(r, v) == UserWritable(s.m, v) && Walk(r, v) == Walk(s.m, v)
    {
      MapGrantsOnePage(s.m, s.held, phys, virt, flags, v);
    }
    MapGrantsOnePage(s.m, s.held, phys, virt, flags, VirtualPage(virt));
  }

  /** The exact condition on a kernel call under which user code stays confined. */
  lemma StaysConfinedIff(s: System, c: Call)
    requires Inv(s.m, s.held) && Confined(s) && Allowed(s, c)
    ensures Confined(Perform(s, c)) <==> Careful(s, c)
  {
    hide MapPage, Walk, GrantsUserWrite, RoomFor, TableFrame, Allocate;
    match c
    case Map(phys, virt, flags) =>
      MapStaysConfinedIff(s, phys, virt, flags);
    case WriteWord(p, i, w) =>
      HeldIsNoTable(s, p);
      StoreElsewhereKeepsTables(s.m, s.held, p, i, w);
    case TakePage =>
      SameMemorySameAccess(s.m, Perform(s, c).m);
    case GivePage(p) =>
      SameMemorySameAccess(s.m, Perform(s, c).m);
  }

  lemma SameMemorySameAccess(m: Machine, r: Machine)
    requires m.Valid() && r.Valid() && r.mem == m.mem && r.dir == m.dir
    ensures forall v: nat :: v < PAGE_COUNT ==> UserWritable(r, v) == UserWritable(m, v) && Walk(r, v) == Walk(m, v)
  {
    hide Word, Present, Writable, User;
  }

  // ---------------------------------------------------------------- runs of kernel and user code

  datatype Event = Kernel(call: Call) | UserWrite(vpn: nat, index: nat, word: uint32)

  /** Kernel calls are allowed and careful; user code may try to write anywhere. */
  ghost predicate Permitted(s: System, e: Event)
    requires s.m.Valid()
  {
    match e
    case Kernel(c) => Allowed(s, c) && Careful(s, c)
    case UserWrite(v, i, _) => v < PAGE_COUNT && i < ENTRIES
  }

  ghost function Happen(s: System, e: Event): (r: System)
    requires s.m.Valid() && Permitted(s, e)
    ensures r.m.Valid()
  {
    match e
    case Kernel(c) => Perform(s, c)
    case UserWrite(v, i, w) => s.(m := UserStore(s.m, v, i, w))
  }

  ghost predicate PermittedRun(s: System, es: seq<Event>)
    requires s.m.Valid()
    decreases |es|
  {
    es != [] ==> Permitted(s, es[0]) && PermittedRun(Happen(s, es[0]), es[1..])
  }

  ghost function HappenAll(s: System, es: seq<Event>): (r: System)
    requires s.m.Valid() && PermittedRun(s, es)
    ensures r.m.Valid()
    decreases |es|
  {
    if es == [] then s else HappenAll(Happen(s, es[0]), es[1..])
  }

  /** The kernel calls among the events, in order. */
  function Calls(es: seq<Event>): seq<Call> {
    if es == [] then [] else (if es[0].Kernel? then [es[0].call] else []) + Calls(es[1..])
  }

  lemma EventKeepsConfined(s: System, e: Event)
    requires Inv(s.m, s.held) && Confined(s) && Permitted(s, e)
    ensures var r := Happen(s, e);
            && Inv(r.m, r.held) && Confined(r)
            && Translations(r.m) == Intended(Translations(s.m), Calls([e]))
  {
    hide Walk, UserAccess, TableFrame, Perform, Careful, Allowed, MapPage, Translations;
    match e
    case Kernel(c) =>
      StepRefinesMap(s, c);
      StaysConfinedIff(s, c);
      assert Calls([e]) == [c];
    case UserWrite(v, i, w) =>
      assert Calls([e]) == [];
      if UserWritable(s.m, v) {
        var f := Walk(s.m, v).value.frame;
        HeldIsNoTable(s, f);
        StoreElsewhereKeepsTables(s.m, s.held, f, i, w);
      }
  }

  /**
   Over every run of careful kernel calls and arbitrary user writes the tables stay sound, user code stays
   confined, and the translations are those of the kernel's Map calls alone.
   */
  lemma {:induction false} UserRunRefinesMap(s: System, es: seq<Event>)
    requires Inv(s.m, s.held) && Confined(s) && PermittedRun(s, es)
    ensures var r := HappenAll(s, es);
            && Inv(r.m, r.held) && Confined(r)
            && Translations(r.m) == Intended(Translations(s.m), Calls(es))
    decreases |es|
  {
    assert s.m.Valid();
    hide Inv, Confined, Permitted, Happen, Translations, Intended;
    if es != [] {
      EventKeepsConfined(s, es[0]);
      UserRunRefinesMap(Happen(s, es[0]), es[1..]);
      IntendedOfCalls(Translations(s.m), es);
    }
  }

  lemma IntendedOfCalls(t: Translation, es: seq<Event>)
    requires es != []
    ensures Intended(t, Calls(es)) == Intended(Intended(t, Calls([es[0]])), Calls(es[1..]))
  {
    var first := if es[0].Kernel? then [es[0].call] else [];
    assert Calls([es[0]]) == first;
    assert Calls(es) == first + Calls(es[1..]);
    if es[0].Kernel? {
      assert Calls(es)[1..] == Calls(es[1..]) && first[1..] == [];
    } else {
      assert Calls(es) == Calls(es[1..]);
    }
  }

  /** From boot: after vmm_init user code can write nowhere, so every permitted run keeps the tables. */
  lemma UserRunFromBoot(mem: Memory, pages: Allocator, es: seq<Event>)
    requires |mem| == MEMORY_WORDS && pages.Valid() && 0 !in pages.free && pages.free != {}
    ensures var s := System(InitTables(mem, pages), {});
            PermittedRun(s, es) ==>
              var r := HappenAll(s, es);
              Inv(r.m, r.held) && Translations(r.m) == Intended(IdentityMap(), Calls(es))
  {
    hide InitTables, PermittedRun, HappenAll, Inv;
    InitTablesIsIdentity(mem, pages, {});
    var s := System(InitTables(mem, pages), {});
    forall v: nat | v < PAGE_COUNT
      ensures !UserWritable(s.m, v)
    {
      assert Walk(s.m, v).Some? ==> v in Translations(s.m);
    }
    if PermittedRun(s, es) {
      UserRunRefinesMap(s, es);
    }
  }

  /**
   Why a page must be unmapped before it is freed: the next region's table may be put into it, and then
   user code rewrites translations through the mapping it still has.
   */
  lemma FreedMappedPageBecomesTable(s: System, v: nat, phys: uint32, virt: uint32, flags: uint32)
    requires Inv(s.m, s.held) && v < PAGE_COUNT && UserWritable(s.m, v) && Walk(s.m, v).value.frame in s.held
    requires !TablePresent(s.m, virt / 4194304)
    requires NextFit(Release(s.m.pages, Walk(s.m, v).value.frame)) == Some(Walk(s.m, v).value.frame)
    ensures var p := Walk(s.m, v).value.frame;
            var a := Perform(s, GivePage(p));
            && RoomFor(a.m, virt)
            && var m := MapPage(a.m, phys, virt, flags);
            && UserWritable(m, v)
            && Table(m, virt / 4194304) == p
            && exists w: uint32 :: Translations(UserStore(m, v, 0, w)) != Translations(m)
  {
    hide Flags, Frame, Present, Writable, User, LargePage, Word, Store, Zeroed, UserAccess, Walk, Translations;
    hide WithFrame, WithPresent, WithWritable, WithUser;
    var p := Walk(s.m, v).value.frame;
    var a := Perform(s, GivePage(p));
    ClientStepKeepsTables(s, GivePage(p));
    SameMemorySameAccess(s.m, a.m);
    NextFitIsNearest(a.m.pages);
    MappedNeedsTable(s.m, v);
    var m := MapPage(a.m, phys, virt, flags);
    MapGrantsOnePage(a.m, a.held, phys, virt, flags, v);
    MapPageIsSoundIff(a.m, a.held, phys, virt, flags);
    TableIsNextFit(a.m, a.held, phys, virt, flags);
    var w := StoreInTableMatters(m, a.held, p);
    assert UserStore(m, v, 0, w) == m.(mem := Store(m.mem, p, 0, w));
  }

  /** The pages left by two calls after vmm_init with the four free pages 256 to 259. */
  lemma PagesOfExample(mem: Memory)
    requires |mem| == MEMORY_WORDS
    ensures InitTables(mem, Allocator({256, 257, 258, 259}, 0)).pages == Allocator({258, 259}, 258)
    ensures Allocate(Allocator({258, 259}, 258)) == (Allocator({259}, 259), 258 * PAGE_SIZE)
    ensures Allocate(Allocator({259}, 259)) == (Allocator({}, 260), 259 * PAGE_SIZE)
    ensures NextFit(Release(Allocator({}, 260), 258)) == Some(258)
  {
    hide Zeroed, IdentityTable, Store, Word, FirstFree;
    NextFitIs(Allocator({256, 257, 258, 259}, 0), 256);
    assert {256, 257, 258, 259} - {256} == {257, 258, 259};
    NextFitIs(Allocator({257, 258, 259}, 257), 257);
    assert {257, 258, 259} - {257} == {258, 259};
    NextFitIs(Allocator({258, 259}, 258), 258);
    assert {258, 259} - {258} == {259};
    NextFitIs(Allocator({259}, 259), 259);
    assert {259} - {259} == {};
    assert {} + {258} == {258};
    assert FirstFree({258}, 260, PAGE_COUNT) == PAGE_COUNT && FirstFree({258}, 0, 260) == 258;
  }

  lemma NextFitIs(a: Allocator, p: nat)
    requires a.last <= p < PAGE_COUNT && p in a.free && forall q <- a.free :: q >= p
    ensures NextFit(a) == Some(p)
  {
    assert FirstFree(a.free, a.last, PAGE_COUNT) == p;
  }

  /**
   It happens from boot: page 258 is allocated, mapped at 4 MB for user code and freed while mapped; the next
   region's table is put into it, and some user store changes a translation.
   */
  lemma FreedMappedPageFromBoot(mem: Memory, phys: uint32, flags: uint32)
    requires |mem| == MEMORY_WORDS
    ensures var calls := [TakePage, Map(258 * PAGE_SIZE, 0x40_0000, 3), GivePage(258), Map(phys, 0x80_0000, flags)];
            var s := System(InitTables(mem, Allocator({256, 257, 258, 259}, 0)), {});
            && AllowedRun(s, calls)
            && var m := PerformAll(s, calls).m;
            && UserWritable(m, 1024) && Table(m, 2) == 258
            && exists w: uint32 :: Translations(UserStore(m, 1024, 0, w)) != Translations(m)
  {
    hide Flags, Frame, Present, Writable, User, LargePage, Word, Store, Zeroed, InitTables, MapPage, Allocate;
    hide UserAccess, Walk, Translations, Inv, FirstFree, TablePresent;
    var boot := Allocator({256, 257, 258, 259}, 0);
    var s0 := System(InitTables(mem, boot), {});
    InitTablesIsIdentity(mem, boot, {});
    PagesOfExample(mem);
    var map1, map2 := Map(258 * PAGE_SIZE, 0x40_0000, 3), Map(phys, 0x80_0000, flags);
    var s1 := Perform(s0, TakePage);
    StepRefinesMap(s0, TakePage);
    SameMemorySameTables(s0.m, s1.m);
    assert s1.held == {258} && s1.m.pages == Allocator({259}, 259);
    var s2 := Perform(s1, map1);
    StepRefinesMap(s1, map1);
    TableIsNextFit(s1.m, s1.held, 258 * PAGE_SIZE, 0x40_0000, 3);
    MapGrantsOnePage(s1.m, s1.held, 258 * PAGE_SIZE, 0x40_0000, 3, 1024);
    assert s2.m.pages == Allocator({}, 260);
    FreedMappedPageBecomesTable(s2, 1024, phys, 0x80_0000, flags);
    RunOfFour(s0, TakePage, map1, GivePage(258), map2);
  }

  lemma SameMemorySameTables(m: Machine, r: Machine)
    requires m.Valid() && r.Valid() && r.mem == m.mem && r.dir == m.dir
    ensures forall i: nat :: i < ENTRIES ==> TablePresent(r, i) == TablePresent(m, i) && Table(r, i) == Table(m, i)
  {
    hide Word, Present, Frame;
  }

  lemma RunOfFour(s: System, a: Call, b: Call, c: Call, d: Call)
    requires s.m.Valid() && Allowed(s, a)
    requires Allowed(Perform(s, a), b) && Allowed(Perform(Perform(s, a), b), c)
    requires Allowed(Perform(Perform(Perform(s, a), b), c), d)
    ensures AllowedRun(s, [a, b, c, d])
    ensures PerformAll(s, [a, b, c, d]) == Perform(Perform(Perform(Perform(s, a), b), c), d)
  {
    hide Allowed, Perform;
    var s1, s2 := Perform(s, a), Perform(Perform(s, a), b);
    var s3 := Perform(s2, c);
    assert [d][1..] == [] && AllowedRun(Perform(s3, d), []) && PerformAll(Perform(s3, d), []) == Perform(s3, d);
    assert AllowedRun(s3, [d]) && PerformAll(s3, [d]) == Perform(s3, d);
    assert [c, d][1..] == [d];
    assert AllowedRun(s2, [c, d]) && PerformAll(s2, [c, d]) == Perform(s3, d);
    assert [b, c, d][1..] == [c, d];
    assert [a, b, c, d][1..] == [b, c, d];
  }

  /** Creating a table takes the next free page, and no other region's table comes or goes. */
  lemma TableIsNextFit(m: Machine, held: set<nat>, phys: uint32, virt: uint32, flags: uint32)
    requires Inv(m, held) && !TablePresent(m, virt / 4194304) && NextFit(m.pages).Some?
    ensures var r := MapPage(m, phys, virt, flags);
            && TablePresent(r, virt / 4194304) && Table(r, virt / 4194304) == NextFit(m.pages).value
            && r.pages == Allocate(m.pages).0
            && forall i: nat :: i < ENTRIES && i != virt / 4194304 ==> TablePresent(r, i) == TablePresent(m, i)
  {
    hide Flags, Frame, Present, Writable, User, LargePage, Word, Store, Zeroed;
    hide WithFrame, WithPresent, WithWritable, WithUser;
    NextFitIsNearest(m.pages);
  }
}
