/**
 The physical page allocator of kernel/mm/pmm.c: a bitmap with one bit per 4 KB page (1 = used)
 and a next-fit pointer.  The abstract allocator is the set of free pages and that pointer.
 */
module PageAllocator {
  import opened Basics

  const PAGE_SIZE: nat := 4096
  const PAGE_COUNT: nat := 1048576
  const BITMAP_SIZE: nat := 131072
  const RESERVED_PAGES: nat := 256

  // ---------------------------------------------------------------- the bitmap as a set of pages

  function Mask(k: nat): bv8
    requires k < 8
  {
    1 << k
  }

  predicate IsSet(b: bv8, k: nat)
    requires k < 8
  {
    b & Mask(k) != 0
  }

  function WithBit(b: bv8, k: nat): bv8
    requires k < 8
  {
    b | Mask(k)
  }

  function WithoutBit(b: bv8, k: nat): bv8
    requires k < 8
  {
    b & !Mask(k)
  }

  predicate BitUsed(bitmap: seq<bv8>, page: nat)
    requires |bitmap| == BITMAP_SIZE && page < PAGE_COUNT
  {
    IsSet(bitmap[page / 8], page % 8)
  }

  ghost function FreePages(bitmap: seq<bv8>): set<nat>
    requires |bitmap| == BITMAP_SIZE
  {
    set p: nat | p < PAGE_COUNT && !BitUsed(bitmap, p)
  }

  /** Setting or clearing one bit of a byte leaves the other seven alone. */
  lemma BitsAreIndependent(b: bv8, i: nat, j: nat)
    requires i < 8 && j < 8
    ensures IsSet(WithBit(b, i), j) <==> i == j || IsSet(b, j)
    ensures IsSet(WithoutBit(b, i), j) <==> i != j && IsSet(b, j)
  {
    assert Mask(0) == 1 && Mask(1) == 2 && Mask(2) == 4 && Mask(3) == 8;
    assert Mask(4) == 16 && Mask(5) == 32 && Mask(6) == 64 && Mask(7) == 128;
    assert i == 0 || i == 1 || i == 2 || i == 3 || i == 4 || i == 5 || i == 6 || i == 7;
    assert j == 0 || j == 1 || j == 2 || j == 3 || j == 4 || j == 5 || j == 6 || j == 7;
  }

  lemma SetBitTakesPage(bitmap: seq<bv8>, page: nat)
    requires |bitmap| == BITMAP_SIZE && page < PAGE_COUNT
    ensures FreePages(bitmap[page / 8 := WithBit(bitmap[page / 8], page % 8)]) == FreePages(bitmap) - {page}
  {
    hide IsSet, WithBit;
    var after := bitmap[page / 8 := WithBit(bitmap[page / 8], page % 8)];
    forall p: nat | p < PAGE_COUNT
      ensures BitUsed(after, p) <==> p == page || BitUsed(bitmap, p)
    {
      if p / 8 == page / 8 {
        BitsAreIndependent(bitmap[page / 8], page % 8, p % 8);
      }
    }
  }

  lemma ClearBitReturnsPage(bitmap: seq<bv8>, page: nat)
    requires |bitmap| == BITMAP_SIZE && page < PAGE_COUNT
    ensures FreePages(bitmap[page / 8 := WithoutBit(bitmap[page / 8], page % 8)]) == FreePages(bitmap) + {page}
  {
    hide IsSet, WithoutBit;
    var after := bitmap[page / 8 := WithoutBit(bitmap[page / 8], page % 8)];
    forall p: nat | p < PAGE_COUNT
      ensures BitUsed(after, p) <==> p != page && BitUsed(bitmap, p)
    {
      if p / 8 == page / 8 {
        BitsAreIndependent(bitmap[page / 8], page % 8, p % 8);
      }
    }
  }

  // ---------------------------------------------------------------- the abstract allocator

  datatype Allocator = Allocator(free: set<nat>, last: nat) {
    ghost predicate Valid() {
      last <= PAGE_COUNT && forall p <- free :: p < PAGE_COUNT
    }
  }

  /** The first free page in lo..hi, or hi when there is none. */
  function FirstFree(free: set<nat>, lo: nat, hi: nat): (p: nat)
    requires lo <= hi
    ensures lo <= p <= hi
    ensures p < hi ==> p in free
    ensures forall q :: lo <= q < p ==> q !in free
    decreases hi - lo
  {
    if lo == hi || lo in free then lo else FirstFree(free, lo + 1, hi)
  }

  /** Next fit: search upwards from the last allocation, then wrap around. */
  function NextFit(a: Allocator): Option<nat>
    requires a.last <= PAGE_COUNT
  {
    var p := FirstFree(a.free, a.last, PAGE_COUNT);
    if p < PAGE_COUNT then Some(p) else
    var q := FirstFree(a.free, 0, a.last);
    if q < a.last then Some(q) else None
  }

  /** The allocator after one allocation, and the address handed out (0 is C's NULL). */
  function Allocate(a: Allocator): (Allocator, nat)
    requires a.last <= PAGE_COUNT
  {
    match NextFit(a)
    case Some(p) => (Allocator(a.free - {p}, p + 1), p * PAGE_SIZE)
    case None => (a, 0)
  }

  function Release(a: Allocator, page: nat): Allocator {
    if page < PAGE_COUNT then a.(free := a.free + {page}) else a
  }

  /** What pmm_free_page does with an address. */
  function ReleaseAddress(a: Allocator, addr: uint32): Allocator {
    Release(a, addr / PAGE_SIZE)
  }

  /** How far the scan must travel from the next-fit pointer to reach page p. */
  function CyclicDistance(last: nat, p: nat): int {
    (p + PAGE_COUNT - last) % PAGE_COUNT
  }

  /** Next fit fails exactly when no page is free, and otherwise picks the cyclically nearest free page. */
  lemma NextFitIsNearest(a: Allocator)
    requires a.Valid()
    ensures NextFit(a).None? <==> a.free == {}
    ensures NextFit(a).Some? ==>
              var p := NextFit(a).value;
              p in a.free && forall q <- a.free :: CyclicDistance(a.last, p) <= CyclicDistance(a.last, q)
  {
    if q :| q in a.free {
      assert q < a.last || q >= a.last;
    }
  }

  /**
   The null address is ambiguous: pages are free and yet it is returned exactly if page 0 is free and the
   search starts there, or wraps around to it because every free page lies before its start.
   */
  lemma NullMeansOutOfMemoryIff(a: Allocator)
    requires a.Valid()
    ensures Allocate(a).1 == 0 && a.free != {} <==>
            0 in a.free && (a.last == 0 || forall p <- a.free :: p < a.last)
    ensures a.free == {} ==> Allocate(a) == (a, 0)
  {
    NextFitIsNearest(a);
    if 0 in a.free && forall p <- a.free :: p < a.last {
      assert FirstFree(a.free, a.last, PAGE_COUNT) == PAGE_COUNT;
    }
  }

  /** After page 0 has been freed, a successful allocation is reported as NULL. */
  lemma FreeingNullConfusesCallers()
    ensures var a := Release(Allocator({}, PAGE_COUNT), 0);
            a.Valid() && a.free != {} && Allocate(a).1 == 0 && Allocate(a).0.free == {}
  {
    var a := Release(Allocator({}, PAGE_COUNT), 0);
    assert 0 in a.free;
    assert a.free - {0} == {};
    NextFitIsNearest(a);
  }

  /** Freeing any address inside the page that was handed out takes the allocation back. */
  lemma AllocateThenRelease(a: Allocator, o: nat)
    requires a.Valid() && a.free != {} && o < 4096
    ensures var (b, addr) := Allocate(a);
            && addr % 4096 == 0 && addr + o < 0x1_0000_0000
            && addr / 4096 in a.free && b.free == a.free - {addr / 4096}
            && ReleaseAddress(b, addr + o).free == a.free
  {
    NextFitIsNearest(a);
    var p := NextFit(a).value;
    assert (p * 4096 + o) / 4096 == p;
  }

  // ---------------------------------------------------------------- runs

  datatype Request = Take | Give(page: nat)

  /** A request as the allocator sees it: any page number may be given back. */
  function After(a: Allocator, r: Request): (b: Allocator)
    requires a.Valid()
    ensures b.Valid()
  {
    match r
    case Take => NextFitIsNearest(a); Allocate(a).0
    case Give(p) => Release(a, p)
  }

  function AfterAll(a: Allocator, rs: seq<Request>): (b: Allocator)
    requires a.Valid()
    ensures b.Valid()
    decreases |rs|
  {
    if rs == [] then a else AfterAll(After(a, rs[0]), rs[1..])
  }

  /** Pages may be given back, but every allocation among the requests fails. */
  predicate NothingTaken(a: Allocator, rs: seq<Request>)
    requires a.Valid()
    decreases |rs|
  {
    rs != [] ==> (rs[0].Take? ==> a.free == {}) && NothingTaken(After(a, rs[0]), rs[1..])
  }

  lemma {:induction false} NothingTakenKeepsStart(a: Allocator, rs: seq<Request>)
    requires a.Valid() && NothingTaken(a, rs)
    ensures AfterAll(a, rs).last == a.last
    decreases |rs|
  {
    if rs != [] {
      NullMeansOutOfMemoryIff(a);
      NothingTakenKeepsStart(After(a, rs[0]), rs[1..]);
    }
  }

  /**
   Two successive allocations, with any releases and failed allocations in between: the second one hands
   out the free page that comes first in cyclic order after the page of the first one.
   */
  lemma AllocationsAreCyclic(a: Allocator, rs: seq<Request>)
    requires a.Valid() && a.free != {}
    ensures var (b, first) := Allocate(a);
            && b.Valid()
            && (NothingTaken(b, rs) && AfterAll(b, rs).free != {} ==>
                  var c := AfterAll(b, rs);
                  var second := Allocate(c).1;
                  && second % 4096 == 0 && second / 4096 in c.free
                  && forall q <- c.free ::
                       (second / 4096 - (first / 4096 + 1)) % 1048576 <= (q - (first / 4096 + 1)) % 1048576)
  {
    hide Allocate, CyclicDistance;
    AllocationInNumbers(a);
    var b := Allocate(a).0;
    if NothingTaken(b, rs) && AfterAll(b, rs).free != {} {
      NothingTakenKeepsStart(b, rs);
      AllocationInNumbers(AfterAll(b, rs));
    }
  }

  /** One allocation in numbers, and where the next search starts. */
  lemma AllocationInNumbers(a: Allocator)
    requires a.Valid() && a.free != {}
    ensures var (b, addr) := Allocate(a);
            && b.Valid() && addr % 4096 == 0 && addr / 4096 in a.free && b.last == addr / 4096 + 1
            && forall q <- a.free :: (addr / 4096 - a.last) % 1048576 <= (q - a.last) % 1048576
  {
    NextFitIsNearest(a);
    var p := NextFit(a).value;
    assert Allocate(a).1 / 4096 == p;
    forall q <- a.free
      ensures (q - a.last) % 1048576 == CyclicDistance(a.last, q)
    {
      CyclicShift(q, a.last);
    }
  }

  lemma CyclicShift(q: nat, last: nat)
    ensures (q - last) % 1048576 == CyclicDistance(last, q)
  {
  }

  /** After a wrap-around, too: with 300 handed out last, 310 is preferred to 258. */
  lemma AllocationAfterWrapAround()
    ensures var (b, first) := Allocate(Allocator({300}, 512));
            && b.Valid() && first == 300 * 4096
            && Allocate(AfterAll(b, [Give(258), Give(310)])).1 == 310 * 4096
  {
    var (b, first) := Allocate(Allocator({300}, 512));
    assert FirstFree({300}, 512, PAGE_COUNT) == PAGE_COUNT && FirstFree({300}, 0, 512) == 300;
    assert {300} - {300} == {};
    assert [Give(258), Give(310)][1..] == [Give(310)] && [Give(310)][1..] == [];
    var c := Release(Release(b, 258), 310);
    assert AfterAll(b, [Give(258), Give(310)]) == c;
    assert c.free == {258, 310} && FirstFree(c.free, 301, PAGE_COUNT) == 310;
  }

  /** The allocator together with the pages its clients hold. */
  datatype Ledger = Ledger(pages: Allocator, held: set<nat>)

  function Serve(l: Ledger, r: Request): (after: Ledger)
    requires l.pages.Valid()
    ensures after.pages.Valid()
  {
    match r
    case Take =>
      var addr := Allocate(l.pages).1;
      Ledger(After(l.pages, r), if addr == 0 then l.held else l.held + {addr / PAGE_SIZE})
    case Give(p) =>
      Ledger(After(l.pages, r), l.held - {p})
  }

  ghost predicate Balanced(l: Ledger, pool: set<nat>) {
    && l.pages.Valid()
    && l.held !! l.pages.free
    && l.held + l.pages.free == pool
    && (forall p <- pool :: 0 < p < PAGE_COUNT)
  }

  /** Clients give back only pages they hold. */
  ghost predicate Honest(l: Ledger, rs: seq<Request>)
    requires l.pages.Valid()
    decreases |rs|
  {
    rs != [] ==>
      && (rs[0].Give? ==> rs[0].page in l.held)
      && Honest(Serve(l, rs[0]), rs[1..])
  }

  ghost function ServeAll(l: Ledger, rs: seq<Request>): Ledger
    requires l.pages.Valid() && Honest(l, rs)
    decreases |rs|
  {
    if rs == [] then l else ServeAll(Serve(l, rs[0]), rs[1..])
  }

  /** One allocation: a fresh nonzero page, not already held, or null exactly when the pool is exhausted. */
  lemma TakeIsFresh(l: Ledger, pool: set<nat>)
    requires Balanced(l, pool)
    ensures Balanced(Serve(l, Take), pool)
    ensures var addr := Allocate(l.pages).1;
            if l.held == pool then addr == 0 && Serve(l, Take) == l
            else addr % PAGE_SIZE == 0 && addr / PAGE_SIZE in pool - l.held
                 && Serve(l, Take).held == l.held + {addr / PAGE_SIZE}
  {
    NextFitIsNearest(l.pages);
    if l.held == pool {
      assert l.pages.free == {};
    } else {
      assert l.pages.free == pool - l.held;
      assert l.pages.free != {};
      var p := NextFit(l.pages).value;
      assert p in pool;
    }
  }

  /** Over every run no page is lost, none is handed out twice, and the next allocation is a fresh page. */
  lemma {:induction false} RunConservesPages(l: Ledger, rs: seq<Request>, pool: set<nat>)
    requires Balanced(l, pool) && Honest(l, rs)
    ensures Balanced(ServeAll(l, rs), pool)
    ensures var end := ServeAll(l, rs);
            var addr := Allocate(end.pages).1;
            if end.held == pool then addr == 0 else addr / PAGE_SIZE in pool - end.held
    decreases |rs|
  {
    if rs == [] {
      TakeIsFresh(l, pool);
    } else {
      if rs[0].Take? { TakeIsFresh(l, pool); }
      RunConservesPages(Serve(l, rs[0]), rs[1..], pool);
    }
  }

  ghost predicate IsAvailable(memorySize: uint32, page: nat) {
    RESERVED_PAGES <= page < memorySize / PAGE_SIZE
  }

  /** The pages pmm_init leaves free for a given memory size. */
  ghost function InitiallyFree(memorySize: uint32): set<nat> {
    set p: nat | p < PAGE_COUNT && IsAvailable(memorySize, p)
  }

  /** A page is free after pmm_init exactly if it starts at 1 MB or above and lies wholly in memory. */
  lemma InitiallyFreeIff(memorySize: uint32, page: nat)
    ensures page in InitiallyFree(memorySize) <==> page * 4096 >= 0x10_0000 && (page + 1) * 4096 <= memorySize
  {
    if (page + 1) * 4096 <= memorySize {
      assert page < memorySize / 4096;
    }
  }

  /** From pmm_init on every honest run conserves the initial pool and ends with a fresh next allocation. */
  lemma RunFromInit(memorySize: uint32, last: nat, rs: seq<Request>)
    requires last <= PAGE_COUNT
    requires Honest(Ledger(Allocator(InitiallyFree(memorySize), last), {}), rs)
    ensures var end := ServeAll(Ledger(Allocator(InitiallyFree(memorySize), last), {}), rs);
            var pool := InitiallyFree(memorySize);
            && Balanced(end, pool)
            && var addr := Allocate(end.pages).1;
               if end.held == pool then addr == 0 else addr / PAGE_SIZE in pool - end.held
  {
    RunConservesPages(Ledger(Allocator(InitiallyFree(memorySize), last), {}), rs, InitiallyFree(memorySize));
  }

  ghost predicate InImage(imageSize: nat, page: nat) {
    RESERVED_PAGES <= page < RESERVED_PAGES + (imageSize + PAGE_SIZE - 1) / PAGE_SIZE
  }

  /** The pages of a kernel image of the given size, which is loaded from 1 MB on. */
  ghost function ImagePages(imageSize: nat): set<nat> {
    set p: nat | p < RESERVED_PAGES + (imageSize + PAGE_SIZE - 1) / PAGE_SIZE && InImage(imageSize, p)
  }

  /** The pool spares the kernel image only if there is no image or no page above 1 MB at all. */
  lemma PoolSparesImageIff(memorySize: uint32, imageSize: nat)
    ensures InitiallyFree(memorySize) !! ImagePages(imageSize)
            <==> imageSize == 0 || memorySize < (RESERVED_PAGES + 1) * PAGE_SIZE
  {
    if imageSize > 0 && memorySize >= (RESERVED_PAGES + 1) * PAGE_SIZE {
      assert RESERVED_PAGES in InitiallyFree(memorySize) && RESERVED_PAGES in ImagePages(imageSize);
    }
  }

  /** The first allocation then is the first page of the image. */
  lemma FirstAllocationIsImage(memorySize: uint32)
    requires memorySize >= (RESERVED_PAGES + 1) * PAGE_SIZE
    ensures Allocate(Allocator(InitiallyFree(memorySize), 0)).1 == 0x10_0000
  {
    var free := InitiallyFree(memorySize);
    assert RESERVED_PAGES in free;
    assert FirstFree(free, 0, PAGE_COUNT) == RESERVED_PAGES;
  }

  // ---------------------------------------------------------------- the code

  /** The static state of pmm.c. */
  class BitmapAllocator {
    const bitmap: array<bv8>
    var lastAllocated: nat

    ghost predicate Valid()
      reads this, bitmap
    {
      bitmap.Length == BITMAP_SIZE && lastAllocated <= PAGE_COUNT
    }

    ghost function Pages(): (a: Allocator)
      reads this, bitmap
      requires Valid()
      ensures a.Valid()
    {
      Allocator(FreePages(bitmap[..]), lastAllocated)
    }

    constructor ()
      ensures Valid() && fresh(bitmap) && lastAllocated == 0
    {
      bitmap := new bv8[BITMAP_SIZE](_ => 0);
      lastAllocated := 0;
    }

    method SetBit(page: nat)
      requires Valid() && page < PAGE_COUNT
      modifies bitmap
      ensures Valid() && Pages() == old(Pages()).(free := old(Pages()).free - {page})
    {
      hide FreePages, WithBit;
      SetBitTakesPage(bitmap[..], page);
      bitmap[page / 8] := WithBit(bitmap[page / 8], page % 8);
      assert bitmap[..] == old(bitmap[..])[page / 8 := WithBit(old(bitmap[page / 8]), page % 8)];
    }

    method ClearBit(page: nat)
      requires Valid() && page < PAGE_COUNT
      modifies bitmap
      ensures Valid() && Pages() == old(Pages()).(free := old(Pages()).free + {page})
    {
      hide FreePages, WithoutBit;
      ClearBitReturnsPage(bitmap[..], page);
      bitmap[page / 8] := WithoutBit(bitmap[page / 8], page % 8);
      assert bitmap[..] == old(bitmap[..])[page / 8 := WithoutBit(old(bitmap[page / 8]), page % 8)];
    }

    method TestBit(page: nat) returns (used: bool)
      requires Valid() && page < PAGE_COUNT
      ensures used <==> page !in Pages().free
    {
      hide IsSet;
      used := IsSet(bitmap[page / 8], page % 8);
      assert used == BitUsed(bitmap[..], page);
    }

    /** pmm_init: everything used, then the pages above 1 MB that exist are released. */
    method Init(memorySize: uint32)
      requires Valid()
      modifies this, bitmap
      ensures Valid() && Pages() == Allocator(InitiallyFree(memorySize), old(lastAllocated))
    {
      var i := 0;
      while i < BITMAP_SIZE
        invariant 0 <= i <= BITMAP_SIZE && lastAllocated == old(lastAllocated)
        invariant forall k :: 0 <= k < i ==> bitmap[k] == 0xFF
      {
        bitmap[i] := 0xFF;
        i := i + 1;
      }
      AllOnesUsesEverything(bitmap[..]);
      i := 0;
      while i < RESERVED_PAGES
        invariant 0 <= i <= RESERVED_PAGES
        invariant Valid() && Pages() == Allocator({}, old(lastAllocated))
      {
        SetBit(i);
        i := i + 1;
      }
      var totalPages := memorySize / PAGE_SIZE;
      i := RESERVED_PAGES;
      while i < totalPages && i < PAGE_COUNT
        invariant RESERVED_PAGES <= i <= PAGE_COUNT
        invariant Valid() && lastAllocated == old(lastAllocated)
        invariant Pages().free == set p: nat | p < i && IsAvailable(memorySize, p)
      {
        ClearBit(i);
        i := i + 1;
      }
    }

    lemma AllOnesUsesEverything(bits: seq<bv8>)
      requires |bits| == BITMAP_SIZE && forall k :: 0 <= k < BITMAP_SIZE ==> bits[k] == 0xFF
      ensures FreePages(bits) == {}
    {
      forall p: nat | p < PAGE_COUNT
        ensures BitUsed(bits, p)
      {
        assert Mask(0) == 1 && Mask(1) == 2 && Mask(2) == 4 && Mask(3) == 8;
        assert Mask(4) == 16 && Mask(5) == 32 && Mask(6) == 64 && Mask(7) == 128;
        var k := p % 8;
        assert k == 0 || k == 1 || k == 2 || k == 3 || k == 4 || k == 5 || k == 6 || k == 7;
      }
    }

    /** pmm_alloc_page. */
    method AllocPage() returns (addr: nat)
      requires Valid()
      modifies this, bitmap
      ensures Valid()
      ensures (Pages(), addr) == Allocate(old(Pages()))
    {
      hide FreePages;
      ghost var before := Pages();
      var i := lastAllocated;
      while i < PAGE_COUNT
        invariant lastAllocated <= i <= PAGE_COUNT && Valid() && Pages() == before
        invariant FirstFree(before.free, lastAllocated, PAGE_COUNT) == FirstFree(before.free, i, PAGE_COUNT)
      {
        var used := TestBit(i);
        if !used {
          SetBit(i);
          lastAllocated := i + 1;
          return i * PAGE_SIZE;
        }
        i := i + 1;
      }
      i := 0;
      while i < lastAllocated
        invariant 0 <= i <= lastAllocated && Valid() && Pages() == before
        invariant FirstFree(before.free, 0, lastAllocated) == FirstFree(before.free, i, lastAllocated)
      {
        var used := TestBit(i);
        if !used {
          SetBit(i);
          lastAllocated := i + 1;
          return i * PAGE_SIZE;
        }
        i := i + 1;
      }
      return 0;
    }

    /** pmm_free_page. */
    method FreePage(addr: uint32)
      requires Valid()
      modifies bitmap
      ensures Valid() && Pages() == ReleaseAddress(old(Pages()), addr)
    {
      var page := addr / PAGE_SIZE;
      if page < PAGE_COUNT {
        ClearBit(page);
      }
    }
  }
}
