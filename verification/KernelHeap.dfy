/** The kernel's own heap, with the kernel's own bounds, on the demand-paged machine it runs on: what it promises,
    and how much physical memory it takes before the promise fails. */
module KernelHeap {
  import opened Bytes
  import opened Wrappers
  import Frames
  import Slab
  import A = Allocator
  import HeapOnPages
  import opened Paging
  import opened FrameBudget
  import opened AllocatorOnPages

  /** `ALLOCATOR.init` on a machine: the fallback heap's own `init` stores the header of its first hole. None is a
      kernel panic. */
  function Boot(u: Mmu, header: seq<(nat, byte)>): (r: Option<World>)
    ensures r.Some? ==> |r.value.slabs| == A.SLABS
  {
    match StoreAll(u, header)
    case None => None
    case Some(v) => Some(Start(v))
  }

  function Start(u: Mmu): (w: World)
    ensures |w.slabs| == A.SLABS
  {
    var h := A.KernelHeap([]);
    World(h.slabs, u, h.heapLo, h.heapHi, map[])
  }

  const HEAP_START: nat := 0x71FF_FFFF_F200

  /** The size of a hole and the pointer to the next one. */
  const HEADER: nat := 16

  /** The bytes of a header at the start of the fallback heap, in whatever order they are stored. */
  predicate IsHeader(stores: seq<(nat, byte)>) {
    stores != [] && forall i :: 0 <= i < |stores| ==> HEAP_START <= stores[i].0 < HEAP_START + HEADER
  }

  lemma {:induction false} StoresStayAbove(m: seq<byte>, stores: seq<(nat, byte)>, lo: nat)
    requires forall i :: 0 <= i < |stores| ==> lo <= stores[i].0
    ensures forall a :: 0 <= a < lo && a < |m| ==> FlatStoreAll(m, stores)[a] == m[a]
    decreases |stores|
  {
    if stores != [] { StoresStayAbove(Put(m, stores[0].0, [stores[0].1]), stores[1..], lo); }
  }

  lemma StartOk(u: Mmu)
    requires Inv(u) && A.KernelMemory(Flat(u))
    ensures Ok(Start(u)) && FlatWorld(Start(u)) == A.KernelHeap(Flat(u)) && A.Fresh(FlatWorld(Start(u)))
  {
    A.KernelSound(Flat(u));
    A.FreshInv(A.KernelHeap(Flat(u)));
    StartPlaced(u);
    assert FlatWorld(Start(u)) == A.KernelHeap(Flat(u));
  }

  lemma StartPlaced(u: Mmu)
    ensures Placed(Start(u))
  {
    assert A.KERNEL_REGION == 0xDFF_FFFF_FE00;
    forall i | 0 <= i < A.SLABS ensures MANAGED_START <= Start(u).slabs[i].start {
      assert Start(u).slabs[i].start == MANAGED_START + A.KERNEL_REGION * i;
    }
  }

  // ---- Conservation over runs -----------------------------------------------------------------

  lemma DoLedger(u: Mmu, x: Access, n: nat)
    requires Ledger(u, n) && Fits(x) && Do(u, x).Some?
    ensures Ledger(Do(u, x).value.1, n)
  {
    var pages := ManagedPages(u) + set b | x.addr <= b < x.addr + Length(x) :: b / Frames.PAGE;
    DoBalances(u, x, n, pages);
  }

  lemma {:induction false} StoreAllLedger(u: Mmu, stores: seq<(nat, byte)>, n: nat)
    requires Ledger(u, n) && (forall i :: 0 <= i < |stores| ==> Managed(stores[i].0)) && StoreAll(u, stores).Some?
    ensures Ledger(StoreAll(u, stores).value, n)
    decreases |stores|
  {
    if stores != [] {
      var x := Access.Write(stores[0].0, [stores[0].1]);
      assert Managed(stores[0].0);
      DoLedger(u, x, n);
      StoreAllLedger(Do(u, x).value.1, stores[1..], n);
    }
  }

  lemma TakeLinkLedger(u: Mmu, a: nat, n: nat)
    requires Ledger(u, n) && InRange(a, WORD) && HeapOnPages.TakeLink(u, a).Some?
    ensures Ledger(HeapOnPages.TakeLink(u, a).value.1, n)
  {
    DoLedger(u, Read(a, WORD), n);
    DoLedger(Do(u, Read(a, WORD)).value.1, Access.Write(a, Encode(0, WORD)), n);
  }

  lemma RequestLedger(w: World, e: Event, n: nat)
    requires Ok(w) && e.Request? && A.Class(e.layout) < A.SLABS && Step(w, e).Some? && Ledger(w.mmu, n)
    ensures Ledger(Step(w, e).value.mmu, n)
  {
    var i := A.Class(e.layout);
    var s := w.slabs[i];
    if s.next < s.end {
      SlabPlaced(w, i);
      assert A.SlabOk(FlatWorld(w), i);
      HeapOnPages.CellFits(s, Flat(w.mmu), A.LiveOf(w.live, i), s.next);
      TakeLinkLedger(w.mmu, s.next, n);
    }
  }

  lemma ReleaseLedger(w: World, e: Event, n: nat)
    requires Ok(w) && e.Release? && e.ptr in w.live && A.Class(w.live[e.ptr]) < A.SLABS
    requires Step(w, e).Some? && Ledger(w.mmu, n)
    ensures Ledger(Step(w, e).value.mmu, n)
  {
    var i := A.Class(w.live[e.ptr]);
    LiveInRange(w, e.ptr);
    DoLedger(w.mmu, Access.Write(e.ptr, Encode(w.slabs[i].next, WORD)), n);
  }

  lemma LiveInRange(w: World, p: nat)
    requires Ok(w) && p in w.live && A.Class(w.live[p]) < A.SLABS
    ensures InRange(p, WORD)
  {
    var i := A.Class(w.live[p]);
    SlabPlaced(w, i);
    assert A.SlabOk(FlatWorld(w), i);
    HeapOnPages.CellFits(w.slabs[i], Flat(w.mmu), A.LiveOf(w.live, i), p);
  }

  lemma HeapLedger(w: World, e: Event, n: nat)
    requires Ok(w) && !e.Write? && Allowed(w, e) && Step(w, e).Some? && Ledger(w.mmu, n)
    requires if e.Request? then A.Class(e.layout) == A.SLABS else A.Class(w.live[e.ptr]) == A.SLABS
    ensures Ledger(Step(w, e).value.mmu, n)
  {
    StoreAllLedger(w.mmu, e.stores, n);
  }

  lemma WriteLedger(w: World, e: Event, n: nat)
    requires Ok(w) && e.Write? && Allowed(w, e) && Step(w, e).Some? && Ledger(w.mmu, n)
    ensures Ledger(Step(w, e).value.mmu, n)
  {
    OwnedInRange(w, e.addr);
    DoLedger(w.mmu, Access.Write(e.addr, [e.value]), n);
  }

  lemma StepLedger(w: World, e: Event, n: nat)
    requires Ok(w) && Allowed(w, e) && Step(w, e).Some? && Ledger(w.mmu, n)
    ensures Ledger(Step(w, e).value.mmu, n)
  {
    match e
    case Request(l, _, _) =>
      if A.Class(l) < A.SLABS { RequestLedger(w, e, n); } else { HeapLedger(w, e, n); }
    case Release(p, _) =>
      if A.Class(w.live[p]) < A.SLABS { ReleaseLedger(w, e, n); } else { HeapLedger(w, e, n); }
    case Write(_, _) => WriteLedger(w, e, n);
  }

  lemma {:induction false} RunLedger(w: World, es: seq<Event>, n: nat)
    requires Ok(w) && A.Fresh(FlatWorld(w)) && Legal(w, es) && Clean(w, es) && Run(w, es).Some? && Ledger(w.mmu, n)
    ensures Ledger(Run(w, es).value.mmu, n)
  {
    if es != [] {
      RunLedger(w, es[..|es| - 1], n);
      RunRefines(w, es[..|es| - 1]);
      StepLedger(Run(w, es[..|es| - 1]).value, es[|es| - 1], n);
    }
  }

  // ---- What the last slab and the start of the fallback heap take up --------------------------

  const CELLS: nat := 0x1_C000_0000
  const FIRST_PAGE: nat := 0x6_3FFF_FFFF
  const HEAP_PAGE: nat := 0x7_1FFF_FFFF
  const PAGES: nat := 0xE000_0001

  lemma {:induction false} CellIs(start: nat, i: nat)
    ensures Slab.Cell(start, 2048, i) == start + 2048 * i
  {
    if i > 0 { CellIs(start, i - 1); }
  }

  ghost predicate KernelSlab(s: Slab.Slab) {
    s.start == 0x63FF_FFFF_F400 && s.end == HEAP_START && s.size == 2048
  }

  lemma StartSlab(u: Mmu)
    ensures KernelSlab(Start(u).slabs[A.LAST]) && Start(u).heapLo == HEAP_START && Start(u).heapHi == MANAGED_END
  {
    assert A.KERNEL_REGION == 0xDFF_FFFF_FE00;
  }

  /** Cell `i` is the upper or the lower half of its page, but for a quarter of a page. */
  lemma CellPage(s: Slab.Slab, i: nat)
    requires KernelSlab(s)
    ensures var a := Slab.Cell(s.start, s.size, i);
            a / Frames.PAGE == FIRST_PAGE + i / 2 && a % Frames.PAGE + WORD <= Frames.PAGE
  {
    CellIs(s.start, i);
  }

  lemma CellsAre(s: Slab.Slab)
    requires KernelSlab(s)
    ensures Slab.CellCount(s.start, s.end, s.size) == CELLS
    ensures A.LastCell(s) == Slab.Cell(s.start, s.size, CELLS - 1) == s.end - 1536
  {
    CellIs(s.start, CELLS - 1);
    CellIs(s.start, CELLS);
    Slab.CellCountExact(s.start, s.end, s.size, CELLS - 1);
    Slab.CellCountExact(s.start, s.end, s.size, CELLS);
  }

  predicate Within(p: nat, lo: nat, n: nat) { lo <= p < lo + n }

  ghost function Interval(lo: nat, n: nat): (ps: set<nat>) { set p | lo <= p < lo + n && Within(p, lo, n) }

  lemma {:induction false} IntervalSize(lo: nat, n: nat)
    ensures |Interval(lo, n)| == n
  {
    if n > 0 {
      IntervalSize(lo, n - 1);
      assert Interval(lo, n) == Interval(lo, n - 1) + {lo + n - 1};
      OneMore(Interval(lo, n - 1), lo + n - 1);
    }
  }

  /** Tables `lo` to `lo + n - 1` of one level. */
  ghost function Strip(level: nat, lo: nat, n: nat): (ts: set<(nat, nat)>) { set i | lo <= i < lo + n :: (level, i) }

  lemma {:induction false} StripSize(level: nat, lo: nat, n: nat)
    ensures |Strip(level, lo, n)| == n
  {
    if n > 0 {
      StripSize(level, lo, n - 1);
      assert Strip(level, lo, n) == Strip(level, lo, n - 1) + {(level, lo + n - 1)};
      OneMore(Strip(level, lo, n - 1), (level, lo + n - 1));
    }
  }

  ghost function SlabPages(): (ps: set<nat>) { Interval(FIRST_PAGE, PAGES) }

  ghost function SlabTables(): (ts: set<(nat, nat)>) {
    Strip(1, 0x31F_FFFF, 0x70_0001) + Strip(2, 0x1_8FFF, 0x3801) + Strip(3, 0xC7, 0x1D)
  }

  /** Frames for every page of the last slab, the first of the fallback heap and every table above them. */
  const OVERRUN_FRAMES: nat := 0xE000_0001 + 0x70_0001 + 0x3801 + 0x1D

  lemma OverrunFrames()
    ensures |SlabPages()| + |SlabTables()| == OVERRUN_FRAMES
  {
    IntervalSize(FIRST_PAGE, PAGES);
    StripSize(1, 0x31F_FFFF, 0x70_0001);
    StripSize(2, 0x1_8FFF, 0x3801);
    StripSize(3, 0xC7, 0x1D);
    var (a, b, c) := (Strip(1, 0x31F_FFFF, 0x70_0001), Strip(2, 0x1_8FFF, 0x3801), Strip(3, 0xC7, 0x1D));
    assert a * b == {} && (a + b) * c == {};
    assert |a + b| == |a| + |b| && |a + b + c| == |a + b| + |c|;
  }

  /** The first number of the range that `i` covers, one level down. */
  function Under(lo: nat, hi: nat, i: nat): (j: nat)
    requires lo <= hi && lo / 512 <= i <= hi / 512
    ensures lo <= j <= hi && j / 512 == i
  {
    if lo >= 512 * i then lo else 512 * i
  }

  lemma IndexIs(page: nat)
    ensures TableIndex(1, page) == page / 512
    ensures TableIndex(2, page) == page / 512 / 512
    ensures TableIndex(3, page) == page / 512 / 512 / 512
  {
    assert TableIndex(0, page) == page;
  }

  const LAST_PAGE: nat := FIRST_PAGE + PAGES - 1

  lemma TableHasPage(t: (nat, nat))
    requires t in SlabTables()
    ensures OnSomePath(t, SlabPages())
  {
    var l2 := if t.0 == 3 then Under(0x1_8FFF, 0x1_C7FF, t.1) else if t.0 == 2 then t.1 else 0x1_8FFF;
    var l1 := if t.0 == 1 then t.1 else Under(0x31F_FFFF, 0x38F_FFFF, l2);
    var p := Under(FIRST_PAGE, LAST_PAGE, l1);
    IndexIs(p);
    assert p in SlabPages() && OnPath(t, p);
  }

  lemma PageHasTables(t: (nat, nat), p: nat)
    requires p in SlabPages() && OnPath(t, p)
    ensures t in SlabTables()
  {
    IndexIs(p);
    var l1 := p / 512;
    assert 0x31F_FFFF <= l1 <= 0x38F_FFFF;
    var l2 := l1 / 512;
    assert 0x1_8FFF <= l2 <= 0x1_C7FF;
    assert 0xC7 <= l2 / 512 <= 0xE3;
  }

  lemma SlabTablesAre()
    ensures TablesOf(SlabPages(), SlabTables())
  {
    forall t | t in SlabTables() ensures OnSomePath(t, SlabPages()) { TableHasPage(t); }
    forall t, p | p in SlabPages() && OnPath(t, p) ensures t in SlabTables() { PageHasTables(t, p); }
  }

  // ---- The last cell costs them all -----------------------------------------------------------

  /** A word that is not zero lies on a page that is there. */
  lemma NonZeroMapped(u: Mmu, a: nat)
    requires Inv(u) && InRange(a, WORD) && a % Frames.PAGE + WORD <= Frames.PAGE && Load(Flat(u), a) != 0
    ensures a / Frames.PAGE in u.pages
  {
    if a / Frames.PAGE !in u.pages {
      forall i | a <= i < a + WORD ensures Flat(u)[i] == 0 { assert i / Frames.PAGE == a / Frames.PAGE; }
      LoadZero(Flat(u), a);
    }
  }

  /** Once cell `j` is out, every cell before it has been out: it is live, or free with a link that is not zero. */
  lemma CellMapped(w: World, i: nat, j: nat)
    requires Ok(w) && KernelSlab(w.slabs[A.LAST]) && i <= j < CELLS
    requires Slab.Cell(w.slabs[A.LAST].start, 2048, j) in A.LiveOf(w.live, A.LAST)
    ensures Slab.Cell(w.slabs[A.LAST].start, 2048, i) / Frames.PAGE in w.mmu.pages
  {
    var s, m, live := w.slabs[A.LAST], Flat(w.mmu), A.LiveOf(w.live, A.LAST);
    var c := Slab.Cell(s.start, 2048, i);
    assert A.SlabOk(FlatWorld(w), A.LAST);
    var free: seq<nat>, k: nat :| Slab.Shape(s, m, live, free, k);
    Carved(s, k, j);
    CellPage(s, i);
    if c in live {
      assert c in w.live && A.Class(w.live[c]) == A.LAST;
    } else {
      assert c in free;
      var x :| 0 <= x < |free| && free[x] == c;
      FreeLink(s, m, live, free, k, x);
      CellIs(s.start, i);
      NonZeroMapped(w.mmu, c);
    }
  }

  lemma Carved(s: Slab.Slab, k: nat, j: nat)
    requires KernelSlab(s) && Slab.IsCell(s, k, Slab.Cell(s.start, 2048, j))
    ensures j < k
  {
    var i: nat :| i < k && Slab.Cell(s.start, s.size, i) == Slab.Cell(s.start, 2048, j);
    CellIs(s.start, i);
    CellIs(s.start, j);
  }

  lemma FreeLink(s: Slab.Slab, m: seq<byte>, live: map<nat, nat>, free: seq<nat>, k: nat, j: nat)
    requires Slab.Shape(s, m, live, free, k) && j < |free|
    ensures Load(m, free[j]) != 0
  {
    if j + 1 < |free| {
      assert free[j + 1] in free;
      Slab.CellBelow(s, k, free[j + 1]);
    }
  }

  lemma AllPagesMapped(w: World)
    requires Ok(w) && KernelSlab(w.slabs[A.LAST]) && A.LastCell(w.slabs[A.LAST]) in A.LiveOf(w.live, A.LAST)
    requires HEAP_PAGE in w.mmu.pages
    ensures SlabPages() <= ManagedPages(w.mmu)
  {
    CellsAre(w.slabs[A.LAST]);
    forall p | p in SlabPages() ensures p in ManagedPages(w.mmu) {
      if p != HEAP_PAGE {
        var i := 2 * (p - FIRST_PAGE);
        CellMapped(w, i, CELLS - 1);
        CellPage(w.slabs[A.LAST], i);
      }
    }
  }

  lemma LastCellCosts(w: World, n: nat)
    requires Ok(w) && KernelSlab(w.slabs[A.LAST]) && Ledger(w.mmu, n) && HEAP_PAGE in w.mmu.pages
    requires A.LastCell(w.slabs[A.LAST]) in A.LiveOf(w.live, A.LAST)
    ensures n >= OVERRUN_FRAMES
  {
    AllPagesMapped(w);
    SlabTablesAre();
    PagesCost(w.mmu, n, SlabPages(), SlabTables());
    OverrunFrames();
  }

  // ---- Booting --------------------------------------------------------------------------------

  /** The kernel's heap as it starts out on a machine with `n` usable frames, one page of it mapped. */
  ghost predicate Fresh(w: World, n: nat) {
    && Ok(w) && A.Fresh(FlatWorld(w)) && Ledger(w.mmu, n) && ManagedPages(w.mmu) == {HEAP_PAGE}
    && KernelSlab(w.slabs[A.LAST]) && w.heapLo == HEAP_START && w.heapHi == MANAGED_END
  }

  /** It is the heap of `Allocator.KernelSafe`. */
  ghost predicate Kernels(w: World) {
    Inv(w.mmu) && FlatWorld(w) == A.KernelHeap(Flat(w.mmu)) && A.KernelMemory(Flat(w.mmu))
  }

  lemma OnePageCosts(page: nat)
    ensures TablesOf({page}, Path(3, page)) && |{page}| + |Path(3, page)| == 4
  {
    TablesOfGrow({}, {}, page);
    assert {} + {page} == {page} && {} + Path(3, page) == Path(3, page);
    MissingIs({}, 3, page);
    assert Path(3, page) - {} == Path(3, page);
    assert Missing({}, 3, page) == 1 + Missing({}, 2, page) && Missing({}, 2, page) == 1 + Missing({}, 1, page);
  }

  /** A store of one byte on the heap's first page. */
  lemma HeaderByte(u: Mmu, x: Access, n: nat)
    requires Inv(u) && Solvent(u, n, {HEAP_PAGE}) && x.Write? && |x.bytes| == 1
    requires HEAP_START <= x.addr < HEAP_START + HEADER
    ensures Do(u, x).Some? <==> n >= 4
    ensures Do(u, x).Some? ==> Solvent(Do(u, x).value.1, n, {HEAP_PAGE}) && HEAP_PAGE in Do(u, x).value.1.pages
  {
    OnHeapPage(x.addr);
    OnePageCosts(HEAP_PAGE);
    if n >= 4 {
      TouchSucceeds(u, x.addr, n, {HEAP_PAGE}, Path(3, HEAP_PAGE));
      ByteTouch(u, x.addr);
    }
    if Do(u, x).Some? {
      var v := Do(u, x).value.1;
      DoBalances(u, x, n, {HEAP_PAGE});
      DoRefines(u, x);
      assert Mapped(v, x.addr / Frames.PAGE);
      HeapPageOnly(v, n);
      PagesCost(v, n, {HEAP_PAGE}, Path(3, HEAP_PAGE));
    }
  }

  lemma OnHeapPage(a: nat)
    requires HEAP_START <= a < HEAP_START + HEADER
    ensures a / Frames.PAGE == HEAP_PAGE && InRange(a, 1) && Inside(a, 1, {HEAP_PAGE})
  {
  }

  lemma ByteTouch(u: Mmu, a: nat)
    ensures TouchRange(u, a, 1) == Touch(u, a)
  {
  }

  lemma {:induction false} HeaderStores(u: Mmu, stores: seq<(nat, byte)>, n: nat)
    requires Inv(u) && Solvent(u, n, {HEAP_PAGE}) && IsHeader(stores)
    ensures StoreAll(u, stores).Some? <==> n >= 4
    ensures StoreAll(u, stores).Some? ==>
              Solvent(StoreAll(u, stores).value, n, {HEAP_PAGE}) && HEAP_PAGE in StoreAll(u, stores).value.pages
    decreases |stores|
  {
    var x := Access.Write(stores[0].0, [stores[0].1]);
    HeaderByte(u, x, n);
    if n >= 4 && |stores| > 1 {
      DoRefines(u, x);
      HeaderStores(Do(u, x).value.1, stores[1..], n);
    }
  }

  lemma BootMemory(u: Mmu, regions: seq<Frames.Region>, header: seq<(nat, byte)>)
    requires Frames.GoodRegions(regions) && Paging.Booted(u, regions) && IsHeader(header)
    requires StoreAll(u, header).Some?
    ensures Inv(StoreAll(u, header).value) && A.KernelMemory(Flat(StoreAll(u, header).value))
  {
    BootIsZero(u, regions);
    StoreAllRefines(u, header);
    StoresStayAbove(Flat(u), header, HEAP_START);
    assert A.KERNEL_REGION == 0xDFF_FFFF_FE00;
  }

  /** The set-up panics exactly if the first page of the fallback heap cannot be had; otherwise the heap is in order. */
  lemma BootPanicsIff(u: Mmu, regions: seq<Frames.Region>, header: seq<(nat, byte)>)
    requires Frames.GoodRegions(regions) && Paging.Booted(u, regions) && IsHeader(header)
    ensures Boot(u, header) == None <==> |Frames.UsableFrames(regions)| < 4
    ensures Boot(u, header).Some? ==>
              Fresh(Boot(u, header).value, |Frames.UsableFrames(regions)|) && Kernels(Boot(u, header).value)
  {
    var n := |Frames.UsableFrames(regions)|;
    BootIsZero(u, regions);
    BootBalances(u, regions);
    HeaderStores(u, header, n);
    if n >= 4 {
      var v := StoreAll(u, header).value;
      BootMemory(u, regions, header);
      StartOk(v);
      StartSlab(v);
      HeapPageOnly(v, n);
    }
  }

  lemma HeapPageOnly(u: Mmu, n: nat)
    requires Solvent(u, n, {HEAP_PAGE}) && HEAP_PAGE in u.pages
    ensures ManagedPages(u) == {HEAP_PAGE}
  {
    assert HEAP_PAGE in ManagedPages(u);
  }

  // ---- Trouble takes that much memory ---------------------------------------------------------

  /** `es` is a run of the kernel's heap that does not panic... */
  ghost predicate Goes(w: World, es: seq<Event>)
    requires |w.slabs| == A.SLABS
  {
    Legal(w, es) && Run(w, es).Some?
  }

  /** ...in which a client writes into the fallback heap's free list... */
  ghost predicate Strays(w: World, es: seq<Event>)
    requires |w.slabs| == A.SLABS
  {
    Goes(w, es) && !Clean(w, es)
  }

  /** ...or which ends with two live allocations that overlap. */
  ghost predicate Overlaps(w: World, es: seq<Event>)
    requires |w.slabs| == A.SLABS
  {
    Goes(w, es) && !A.Disjoint(Run(w, es).value.live)
  }

  lemma LastOutCosts(w: World, es: seq<Event>, n: nat)
    requires Fresh(w, n) && Goes(w, es) && Clean(w, es)
    requires A.LastCell(w.slabs[A.LAST]) in A.LiveOf(Run(w, es).value.live, A.LAST)
    ensures n >= OVERRUN_FRAMES
  {
    RunLedger(w, es, n);
    RunRefines(w, es);
    A.RunKeepsRegion(FlatWorld(w), FlatEvents(w, es), A.LAST);
    A.SameLast(w.slabs[A.LAST], Run(w, es).value.slabs[A.LAST]);
    assert HEAP_PAGE in ManagedPages(w.mmu);
    LastCellCosts(Run(w, es).value, n);
  }

  /** So no client gets to write into the fallback heap's free list with less... */
  lemma {:induction false} UncleanCosts(w: World, es: seq<Event>, n: nat)
    requires Fresh(w, n) && Strays(w, es)
    ensures n >= OVERRUN_FRAMES
  {
    var es' := es[..|es| - 1];
    if Clean(w, es') {
      TrespassCosts(w, es', es[|es| - 1], n);
    } else {
      UncleanCosts(w, es', n);
    }
  }

  lemma TrespassCosts(w: World, es: seq<Event>, e: Event, n: nat)
    requires Fresh(w, n) && Goes(w, es) && Clean(w, es) && Polite(Run(w, es).value, e) && Trespass(Run(w, es).value, e)
    ensures n >= OVERRUN_FRAMES
  {
    var v := Run(w, es).value;
    RunRefines(w, es);
    A.TrespassIsLast(FlatWorld(v), A.Write(e.addr, e.value));
    A.RunKeepsRegion(FlatWorld(w), FlatEvents(w, es), A.LAST);
    A.SameLast(w.slabs[A.LAST], v.slabs[A.LAST]);
    LastOutCosts(w, es, n);
  }

  /** ...and no two allocations overlap. */
  lemma OverlapCosts(w: World, es: seq<Event>, n: nat)
    requires Fresh(w, n) && Overlaps(w, es)
    ensures n >= OVERRUN_FRAMES
  {
    if Clean(w, es) {
      var v := Run(w, es).value;
      RunRefines(w, es);
      A.AllocatorSafe(FlatWorld(w), FlatEvents(w, es));
      A.RunKeepsRegion(FlatWorld(w), FlatEvents(w, es), A.LAST);
      A.SameLast(w.slabs[A.LAST], v.slabs[A.LAST]);
      OverlapIsLast(FlatWorld(v));
      LastOutCosts(w, es, n);
    } else {
      UncleanCosts(w, es, n);
    }
  }

  lemma OverlapIsLast(v: A.World)
    requires |v.slabs| == A.SLABS && v.slabs[A.LAST].size > 0 && A.OnlyLastOverruns(v) && !A.Disjoint(v.live)
    ensures A.LastCell(v.slabs[A.LAST]) in A.LiveOf(v.live, A.LAST)
  {
    var p, q :| p in v.live && q in v.live && p != q && !A.Apart(p, v.live[p].size, q, v.live[q].size);
    assert A.Overrun(v, p, q) || A.Overrun(v, q, p);
  }

  /** What the kernel's heap promises on the kernel's machine, over every run that does not exhaust physical memory.
      While no client has written into the fallback heap's free list: a pointer is never handed out while it is
      held, a release reaches the slab that served it, `used` is right, every allocation is aligned as asked unless
      2048 was asked for, and live allocations are disjoint unless the last slab's last cell is out. With fewer than
      3765450784 usable frames no client ever writes there, and live allocations are always disjoint. */
  lemma SafeOnPages(u: Mmu, regions: seq<Frames.Region>, header: seq<(nat, byte)>, es: seq<Event>)
    requires Frames.GoodRegions(regions) && Paging.Booted(u, regions) && IsHeader(header)
    requires Boot(u, header).Some? && Goes(Boot(u, header).value, es)
    ensures var w := Boot(u, header).value;
            var v := Run(w, es).value;
            && w.slabs[A.LAST].size > 0
            && (Clean(w, es) ==> Inv(v.mmu) && A.Safe(FlatWorld(v)) && A.NearlyAligned(v.live))
            && (Clean(w, es) && A.LastCell(w.slabs[A.LAST]) !in v.live ==> A.Disjoint(v.live))
            && (|Frames.UsableFrames(regions)| < 3765450784 ==> Clean(w, es) && A.Disjoint(v.live))
  {
    var w, n := Boot(u, header).value, |Frames.UsableFrames(regions)|;
    BootPanicsIff(u, regions, header);
    FreshSafe(w, es, n);
  }

  lemma FreshSafe(w: World, es: seq<Event>, n: nat)
    requires Fresh(w, n) && Kernels(w) && Goes(w, es)
    ensures var v := Run(w, es).value;
            && (Clean(w, es) ==> Inv(v.mmu) && A.Safe(FlatWorld(v)) && A.NearlyAligned(v.live))
            && (Clean(w, es) && A.LastCell(w.slabs[A.LAST]) !in v.live ==> A.Disjoint(v.live))
            && (n < OVERRUN_FRAMES ==> Clean(w, es) && A.Disjoint(v.live))
  {
    if Clean(w, es) {
      RunRefines(w, es);
      A.KernelSafe(Flat(w.mmu), FlatEvents(w, es));
    } else {
      UncleanCosts(w, es, n);
    }
    if Overlaps(w, es) { OverlapCosts(w, es, n); }
  }

  // ---- And with that much memory it happens ---------------------------------------------------

  /** `j` requests for a whole cell of the last slab. */
  function Fill(j: nat): (es: seq<Event>)
    ensures |es| == j
  {
    if j == 0 then [] else Fill(j - 1) + [Request(A.BIG, 0, [])]
  }

  ghost predicate Filled(w: World, n: nat, j: nat)
    requires |w.slabs| == A.SLABS
  {
    && Goes(w, Fill(j)) && Clean(w, Fill(j)) && FlatEvents(w, Fill(j)) == A.FillLast(j)
    && Solvent(Run(w, Fill(j)).value.mmu, n, SlabPages())
  }

  lemma LastFresh(w: World, n: nat)
    requires Fresh(w, n)
    ensures Slab.Fresh(Slab.World(w.slabs[A.LAST], Flat(w.mmu), map[]))
  {
    assert A.Cut(FlatWorld(w).slabs[A.LAST], A.LAST);
  }

  /** After `j` of those requests the last slab is as if it had been alone, and the first `j` cells are out. */
  lemma FillMirrors(w: World, n: nat, j: nat)
    requires Fresh(w, n) && Filled(w, n, j) && j <= Slab.CellCount(w.slabs[A.LAST].start, w.slabs[A.LAST].end, 2048)
    ensures var (v, s) := (Run(w, Fill(j)).value, w.slabs[A.LAST]);
            && Ok(v) && KernelSlab(v.slabs[A.LAST]) && v.heapLo == w.heapLo && v.heapHi == w.heapHi
            && v.slabs[A.LAST].next == Slab.Cell(s.start, 2048, j)
            && (forall q :: q in v.live ==> v.live[q] == A.BIG)
            && (forall i: nat :: i < j ==> Slab.Cell(s.start, 2048, i) in v.live)
  {
    var s := w.slabs[A.LAST];
    var alone := Slab.World(s, Flat(w.mmu), map[]);
    RunRefines(w, Fill(j));
    A.FillLastRun(FlatWorld(w), j);
    LastFresh(w, n);
    Slab.FillRun(alone, j);
    Slab.RunKeepsRegion(alone, Slab.Fill(2048, j));
    forall i: nat | i < j ensures Slab.Cell(s.start, 2048, i) in Run(w, Fill(j)).value.live {
      assert Slab.Cell(s.start, 2048, i) in Slab.Run(alone, Slab.Fill(2048, j)).live;
    }
  }

  /** A word that does not cross a page faults on one page only. */
  lemma WordTouch(u: Mmu, a: nat)
    requires a % Frames.PAGE + WORD <= Frames.PAGE
    ensures TouchRange(u, a, WORD) == Touch(u, a)
  {
  }

  lemma FillInside(s: Slab.Slab, j: nat)
    requires KernelSlab(s) && j < CELLS
    ensures var a := Slab.Cell(s.start, s.size, j);
            InRange(a, WORD) && a / Frames.PAGE in SlabPages() && Inside(a, WORD, SlabPages())
  {
    var a := Slab.Cell(s.start, s.size, j);
    CellIs(s.start, j);
    CellPage(s, j);
    forall b: nat | a <= b < a + WORD ensures b / Frames.PAGE in SlabPages() {
      assert b / Frames.PAGE == a / Frames.PAGE;
    }
  }

  /** With frames for the slab's pages and tables, the next request is served and stays within them. */
  lemma FillStep(w: World, n: nat, j: nat)
    requires Ok(w) && KernelSlab(w.slabs[A.LAST]) && Solvent(w.mmu, n, SlabPages()) && n >= OVERRUN_FRAMES && j < CELLS
    requires w.slabs[A.LAST].next == Slab.Cell(w.slabs[A.LAST].start, 2048, j) < w.slabs[A.LAST].end
    ensures var r := Step(w, Request(A.BIG, 0, [])); r.Some? && Solvent(r.value.mmu, n, SlabPages())
  {
    var s := w.slabs[A.LAST];
    var a := s.next;
    A.ClassOfBig();
    CellPage(s, j);
    FillInside(s, j);
    SlabTablesAre();
    OverrunFrames();
    TouchSucceeds(w.mmu, a, n, SlabPages(), SlabTables());
    WordTouch(w.mmu, a);
    HeapOnPages.AllocPanicsIff(s, w.mmu, 2048);
    TakeLinkSolvent(w.mmu, a, n, SlabPages());
  }

  lemma TakeLinkSolvent(u: Mmu, a: nat, n: nat, pages: set<nat>)
    requires Solvent(u, n, pages) && InRange(a, WORD) && Inside(a, WORD, pages) && HeapOnPages.TakeLink(u, a).Some?
    ensures Solvent(HeapOnPages.TakeLink(u, a).value.1, n, pages)
  {
    DoBalances(u, Read(a, WORD), n, pages);
    DoBalances(Do(u, Read(a, WORD)).value.1, Access.Write(a, Encode(0, WORD)), n, pages);
  }

  lemma FillAllowed(w: World)
    requires Ok(w)
    ensures Allowed(w, Request(A.BIG, 0, [])) && FlatEvent(w, Request(A.BIG, 0, [])) == A.Request(A.BIG, 0, [])
  {
    A.ClassOfBig();
  }

  lemma {:induction false} FillRuns(w: World, n: nat, j: nat)
    requires Fresh(w, n) && j <= CELLS && n >= OVERRUN_FRAMES
    ensures Filled(w, n, j)
  {
    if j == 0 {
      FillNone(w, n);
    } else {
      FillRuns(w, n, j - 1);
      FillOneMore(w, n, j - 1);
    }
  }

  lemma FillNone(w: World, n: nat)
    requires Fresh(w, n)
    ensures Filled(w, n, 0)
  {
    assert Within(HEAP_PAGE, FIRST_PAGE, PAGES);
    assert Fill(0) == [] && Run(w, []) == Some(w) && A.FillLast(0) == [];
  }

  lemma FillOneMore(w: World, n: nat, j: nat)
    requires Fresh(w, n) && Filled(w, n, j) && j < CELLS && n >= OVERRUN_FRAMES
    ensures Filled(w, n, j + 1)
  {
    NextCellIs(w, n, j);
    FillStep(Run(w, Fill(j)).value, n, j);
    FillAllowed(Run(w, Fill(j)).value);
    OneMoreEvent(w, Fill(j), Request(A.BIG, 0, []));
    assert Fill(j + 1) == Fill(j) + [Request(A.BIG, 0, [])];
    assert A.FillLast(j + 1) == A.FillLast(j) + [A.Request(A.BIG, 0, [])];
  }

  lemma NextCellIs(w: World, n: nat, j: nat)
    requires Fresh(w, n) && Filled(w, n, j) && j < CELLS
    ensures var v := Run(w, Fill(j)).value;
            var s := v.slabs[A.LAST];
            Ok(v) && KernelSlab(s) && s.next == Slab.Cell(s.start, 2048, j) < s.end
  {
    var s := w.slabs[A.LAST];
    CellsAre(s);
    Slab.CellCountExact(s.start, s.end, s.size, j);
    FillMirrors(w, n, j);
  }

  /** A request the fallback heap serves without storing anything. */
  lemma HeapRequest(w: World, e: Event)
    requires Ok(w) && e.Request? && e.stores == [] && A.Class(e.layout) == A.SLABS
    requires A.Allowed(FlatWorld(w), A.Request(e.layout, e.answer, Flat(w.mmu)))
    ensures Allowed(w, e) && Step(w, e).Some?
    ensures Step(w, e).value.live == A.Step(FlatWorld(w), A.Request(e.layout, e.answer, Flat(w.mmu))).live
  {
  }

  /** The slab has this many cells, and the last one sticks out. */
  ghost predicate Holds(s: Slab.Slab, cells: nat) {
    && s.size == 2048 && 0 < cells == Slab.CellCount(s.start, s.end, 2048) && cells <= CELLS
    && 0 < Slab.Cell(s.start, 2048, cells - 1) < s.end < Slab.Cell(s.start, 2048, cells - 1) + 2048
  }

  lemma KernelHolds(s: Slab.Slab)
    requires KernelSlab(s)
    ensures Holds(s, Slab.CellCount(s.start, s.end, 2048))
  {
    CellsAre(s);
  }

  /** With every cell out, a heap block overlaps the last, and its holder can write into the heap's free list. */
  lemma HeapStartTrouble(w: World, p: nat)
    requires Ok(w) && p in w.live && (forall q :: q in w.live ==> w.live[q] == A.BIG) && HEAP_PAGE in w.mmu.pages
    requires 0 < p < w.heapLo == HEAP_START < p + 2048 && w.heapLo + 2049 <= w.heapHi
    ensures Troubled(w, Request(A.Layout(2049, 1), w.heapLo, []), Event.Write(w.heapLo, 0))
  {
    A.ClassOfBig();
    A.HeapStartCollides(FlatWorld(w), p);
    HeapRequest(w, Request(A.Layout(2049, 1), w.heapLo, []));
    A.HeapStartOwned(FlatWorld(w), p);
    assert HEAP_START / Frames.PAGE == HEAP_PAGE && TouchRange(w.mmu, w.heapLo, 1) == Touch(w.mmu, w.heapLo);
  }

  /** Every cell of the last slab, and then a heap block... */
  function OverlapRun(w: World, cells: nat): (es: seq<Event>)
  {
    Fill(cells) + [Request(A.Layout(2049, 1), w.heapLo, [])]
  }

  /** ...or a write past the region. */
  function StrayRun(w: World, cells: nat): (es: seq<Event>)
  {
    Fill(cells) + [Event.Write(w.heapLo, 0)]
  }

  /** Those are the runs that lead to trouble. */
  lemma TroubleHappens(w: World, n: nat, cells: nat)
    requires Fresh(w, n) && n >= OVERRUN_FRAMES && Holds(w.slabs[A.LAST], cells)
    ensures Overlaps(w, OverlapRun(w, cells)) && Strays(w, StrayRun(w, cells))
  {
    FillRuns(w, n, cells);
    FillMirrors(w, n, cells);
    HeapPageStays(w, Fill(cells), n);
    HeapStartTrouble(Run(w, Fill(cells)).value, Slab.Cell(w.slabs[A.LAST].start, 2048, cells - 1));
    TroubleNow(w, Fill(cells));
  }

  lemma TroubleNow(w: World, es: seq<Event>)
    requires |w.slabs| == A.SLABS && Goes(w, es) && Inv(Run(w, es).value.mmu)
    requires Troubled(Run(w, es).value, Request(A.Layout(2049, 1), w.heapLo, []), Event.Write(w.heapLo, 0))
    ensures Overlaps(w, es + [Request(A.Layout(2049, 1), w.heapLo, [])])
    ensures Strays(w, es + [Event.Write(w.heapLo, 0)])
  {
    OneMoreEvent(w, es, Request(A.Layout(2049, 1), w.heapLo, []));
    OneMoreEvent(w, es, Event.Write(w.heapLo, 0));
  }

  /** The first event makes two allocations overlap, the second writes into the heap's free list. */
  ghost predicate Troubled(w: World, e: Event, e': Event)
    requires |w.slabs| == A.SLABS && Inv(w.mmu)
  {
    && Allowed(w, e) && Step(w, e).Some? && !A.Disjoint(Step(w, e).value.live)
    && Allowed(w, e') && Step(w, e').Some? && Trespass(w, e')
  }

  lemma HeapPageStays(w: World, es: seq<Event>, n: nat)
    requires Fresh(w, n) && Goes(w, es) && Clean(w, es)
    ensures HEAP_PAGE in Run(w, es).value.mmu.pages
  {
    RunRefines(w, es);
    assert HEAP_PAGE in ManagedPages(w.mmu);
  }

  lemma FreshOverlapIff(w: World, n: nat)
    requires Fresh(w, n)
    ensures (exists es :: Overlaps(w, es)) <==> n >= OVERRUN_FRAMES
    ensures (exists es :: Strays(w, es)) <==> n >= OVERRUN_FRAMES
  {
    if n >= OVERRUN_FRAMES {
      TroubleAhead(w, n);
    } else {
      forall es | Goes(w, es) ensures !Overlaps(w, es) && Clean(w, es) { Peaceful(w, es, n); }
    }
  }

  lemma TroubleAhead(w: World, n: nat)
    requires Fresh(w, n) && n >= OVERRUN_FRAMES
    ensures (exists es :: Overlaps(w, es)) && exists es :: Strays(w, es)
  {
    var cells := Slab.CellCount(w.slabs[A.LAST].start, w.slabs[A.LAST].end, 2048);
    KernelHolds(w.slabs[A.LAST]);
    ThereIsTrouble(w, n, cells);
  }

  lemma ThereIsTrouble(w: World, n: nat, cells: nat)
    requires Fresh(w, n) && n >= OVERRUN_FRAMES && Holds(w.slabs[A.LAST], cells)
    ensures (exists es :: Overlaps(w, es)) && exists es :: Strays(w, es)
  {
    TroubleHappens(w, n, cells);
  }

  lemma Peaceful(w: World, es: seq<Event>, n: nat)
    requires Fresh(w, n) && n < OVERRUN_FRAMES && Goes(w, es)
    ensures !Overlaps(w, es) && Clean(w, es)
  {
    if !Clean(w, es) { UncleanCosts(w, es, n); }
    if Overlaps(w, es) { OverlapCosts(w, es, n); }
  }

  /** On a machine with these usable regions, two live allocations of the kernel's heap can come to overlap, and a
      client can come to write into the fallback heap's free list, exactly if there are at least 3765450784 usable
      frames, some 14 TiB. */
  lemma OverlapIff(u: Mmu, regions: seq<Frames.Region>, header: seq<(nat, byte)>)
    requires Frames.GoodRegions(regions) && Paging.Booted(u, regions) && IsHeader(header)
    ensures var r := Boot(u, header);
            && ((r.Some? && exists es :: Overlaps(r.value, es)) <==> |Frames.UsableFrames(regions)| >= 3765450784)
            && ((r.Some? && exists es :: Strays(r.value, es)) <==> |Frames.UsableFrames(regions)| >= 3765450784)
  {
    BootPanicsIff(u, regions, header);
    if Boot(u, header).Some? { FreshOverlapIff(Boot(u, header).value, |Frames.UsableFrames(regions)|); }
  }

  // ---- Alignment ------------------------------------------------------------------------------

  /** `es` does not panic and ends with an allocation that is not aligned as it was asked for. */
  ghost predicate Misaligns(w: World, es: seq<Event>)
    requires |w.slabs| == A.SLABS
  {
    Goes(w, es) && !A.Aligned(Run(w, es).value.live)
  }

  /** The first pages of the last slab and of the fallback heap have no table in common. */
  ghost function TwoPages(): (ps: set<nat>) { {HEAP_PAGE} + {FIRST_PAGE} }
  ghost function TwoPaths(): (ts: set<(nat, nat)>) { Path(3, HEAP_PAGE) + Path(3, FIRST_PAGE) }

  lemma TwoPagesCost()
    ensures TablesOf(TwoPages(), TwoPaths()) && |TwoPages()| + |TwoPaths()| == 8
  {
    OnePageCosts(HEAP_PAGE);
    OnePageCosts(FIRST_PAGE);
    TablesOfGrow({HEAP_PAGE}, Path(3, HEAP_PAGE), FIRST_PAGE);
    OneMore({HEAP_PAGE}, FIRST_PAGE);
    PathsApart(HEAP_PAGE, FIRST_PAGE);
    Union(Path(3, HEAP_PAGE), Path(3, FIRST_PAGE));
  }

  lemma PathsApart(p: nat, q: nat)
    requires p / 512 / 512 / 512 != q / 512 / 512 / 512
    ensures Path(3, q) - Path(3, p) == Path(3, q)
  {
    PathIs(3, p);
    PathIs(3, q);
    IndexIs(p);
    IndexIs(q);
    forall t | t in Path(3, q) ensures t !in Path(3, p) {
      assert OnPath(t, q, 3) && (t.0 == 1 || t.0 == 2 || t.0 == 3);
    }
  }

  /** A cell of the last slab that is out has cost its first page, besides that of the heap. */
  lemma CellOutCosts(w: World, p: nat, n: nat)
    requires Ok(w) && KernelSlab(w.slabs[A.LAST]) && Ledger(w.mmu, n) && HEAP_PAGE in w.mmu.pages
    requires p in A.LiveOf(w.live, A.LAST)
    ensures n >= 8
  {
    FirstPageMapped(w, p);
    BothManaged(w.mmu);
    TwoPagesCost();
    PagesCost(w.mmu, n, TwoPages(), TwoPaths());
  }

  lemma FirstPageMapped(w: World, p: nat)
    requires Ok(w) && KernelSlab(w.slabs[A.LAST]) && p in A.LiveOf(w.live, A.LAST)
    ensures FIRST_PAGE in w.mmu.pages
  {
    var s := w.slabs[A.LAST];
    assert A.SlabOk(FlatWorld(w), A.LAST);
    A.SlabBlock(FlatWorld(w), A.LAST, p);
    CellsAre(s);
    var i: nat :| i < CELLS && Slab.Cell(s.start, s.size, i) == p;
    CellMapped(w, 0, i);
    CellPage(s, 0);
  }

  lemma BothManaged(u: Mmu)
    requires HEAP_PAGE in u.pages && FIRST_PAGE in u.pages
    ensures TwoPages() <= ManagedPages(u)
  {
  }

  lemma MisalignCosts(w: World, es: seq<Event>, n: nat)
    requires Fresh(w, n) && Kernels(w) && Misaligns(w, es)
    ensures n >= 8
  {
    if Clean(w, es) {
      RunLedger(w, es, n);
      HeapPageStays(w, es, n);
      RunRefines(w, es);
      A.RunKeepsRegion(FlatWorld(w), FlatEvents(w, es), A.LAST);
      A.KernelSafe(Flat(w.mmu), FlatEvents(w, es));
      CellOutCosts(Run(w, es).value, MisalignedCell(Run(w, es).value), n);
    } else {
      UncleanCosts(w, es, n);
    }
  }

  /** A misaligned allocation is a cell of the last slab. */
  ghost function MisalignedCell(w: World): (p: nat)
    requires Ok(w) && A.NearlyAligned(w.live) && !A.Aligned(w.live)
    ensures p in A.LiveOf(w.live, A.LAST)
  {
    var p :| p in w.live && !(w.live[p].align > 0 && p % w.live[p].align == 0);
    A.BlockAligned(FlatWorld(w), p);
    A.ClassFits(w.live[p], 0);
    p
  }

  const WIDE: A.Layout := A.Layout(2048, 2048)

  lemma FirstServed(w: World, n: nat)
    requires Fresh(w, n) && n >= 8
    ensures Step(w, Request(WIDE, 0, [])).Some?
  {
    var s := w.slabs[A.LAST];
    A.ClassOfCell(A.LAST, 0);
    TwoPagesCost();
    CellPage(s, 0);
    TouchSucceeds(w.mmu, s.start, n, TwoPages(), TwoPaths());
    WordTouch(w.mmu, s.start);
    HeapOnPages.AllocPanicsIff(s, w.mmu, 2048);
  }

  lemma MisalignHappens(w: World, n: nat)
    requires Fresh(w, n) && n >= 8
    ensures Misaligns(w, [Request(WIDE, 0, [])])
  {
    FirstServed(w, n);
    FirstAllowed(w, n);
    OneMoreEvent(w, [], Request(WIDE, 0, []));
    assert [] + [Request(WIDE, 0, [])] == [Request(WIDE, 0, [])];
    StepRefines(w, Request(WIDE, 0, []));
  }

  lemma FirstAllowed(w: World, n: nat)
    requires Fresh(w, n)
    ensures Allowed(w, Request(WIDE, 0, []))
    ensures !A.Aligned(A.Step(FlatWorld(w), FlatEvent(w, Request(WIDE, 0, []))).live)
  {
    A.ClassOfCell(A.LAST, 0);
    A.FirstCellMisaligned(FlatWorld(w), A.LAST);
    A.RunOne(FlatWorld(w), A.Request(WIDE, 0, []));
  }

  lemma FreshMisalignIff(w: World, n: nat)
    requires Fresh(w, n) && Kernels(w)
    ensures (exists es :: Misaligns(w, es)) <==> n >= 8
  {
    if n >= 8 {
      MisalignHappens(w, n);
    } else {
      forall es ensures !Misaligns(w, es) {
        if Misaligns(w, es) { MisalignCosts(w, es, n); }
      }
    }
  }

  /** Some allocation of the kernel's heap can come out misaligned exactly if there are frames for a page of the
      last slab besides that of the fallback heap: the very first allocation with an alignment of 2048 does. */
  lemma MisalignIff(u: Mmu, regions: seq<Frames.Region>, header: seq<(nat, byte)>)
    requires Frames.GoodRegions(regions) && Paging.Booted(u, regions) && IsHeader(header)
    ensures var r := Boot(u, header);
            (r.Some? && exists es :: Misaligns(r.value, es)) <==> |Frames.UsableFrames(regions)| >= 8
  {
    BootPanicsIff(u, regions, header);
    if Boot(u, header).Some? { FreshMisalignIff(Boot(u, header).value, |Frames.UsableFrames(regions)|); }
  }
}
