/** A slab running on demand-paged memory: its loads and stores fault, are mapped and retried, and the slab
    still behaves as it would on flat memory that starts all zero. */
module HeapOnPages {
  import opened Bytes
  import opened Wrappers
  import Frames
  import Slab
  import opened Paging

  /** Reading the link of a cell and clearing it, through the page table; None is a kernel panic. */
  function TakeLink(u: Mmu, a: nat): (r: Option<(nat, Mmu)>)
  {
    match Do(u, Read(a, WORD))
    case None => None
    case Some((bytes, v)) =>
      match Do(v, Write(a, Encode(0, WORD)))
      case None => None
      case Some((_, w)) => Some((Decode(bytes), w))
  }

  function Alloc(s: Slab.Slab, u: Mmu, request: nat): (r: Option<(nat, Slab.Slab, Mmu)>)
  {
    if s.next >= s.end then Some((0, s, u))
    else
      match TakeLink(u, s.next)
      case None => None
      case Some((link, v)) =>
        Some((s.next, s.(next := if link == 0 then s.next + s.size else link, used := s.used + request), v))
  }

  function Dealloc(s: Slab.Slab, u: Mmu, ptr: nat, request: nat): (r: Option<(Slab.Slab, Mmu)>)
  {
    match Do(u, Write(ptr, Encode(s.next, WORD)))
    case None => None
    case Some((_, v)) => Some((s.(next := ptr, used := s.used - request), v))
  }

  datatype World = World(slab: Slab.Slab, mmu: Mmu, live: map<nat, nat>)

  function Step(w: World, e: Slab.Event): (r: Option<World>)
  {
    match e
    case Request(bytes) =>
      (match Alloc(w.slab, w.mmu, bytes)
       case None => None
       case Some((p, s', u')) => Some(World(s', u', if p == 0 then w.live else w.live[p := bytes])))
    case Release(ptr) =>
      if ptr !in w.live then Some(w) else
      (match Dealloc(w.slab, w.mmu, ptr, w.live[ptr])
       case None => None
       case Some((s', u')) => Some(World(s', u', w.live - {ptr})))
    case Write(addr, value) =>
      (match Do(w.mmu, Access.Write(addr, [value]))
       case None => None
       case Some((_, u')) => Some(w.(mmu := u')))
  }

  function Run(w: World, es: seq<Slab.Event>): (r: Option<World>)
  {
    if es == [] then Some(w)
    else
      match Run(w, es[..|es| - 1])
      case None => None
      case Some(v) => Step(v, es[|es| - 1])
  }

  /** The same world with its memory seen flat. */
  ghost function FlatWorld(w: World): (v: Slab.World)
    requires Inv(w.mmu)
  {
    Slab.World(w.slab, Flat(w.mmu), w.live)
  }

  /** The slab lies in the managed range. */
  ghost predicate Placed(s: Slab.Slab) { WORD <= s.size && MANAGED_START <= s.start && Slab.Limit(s) <= MANAGED_END }

  /** Live cells, and the cell `next` points at when there is one, lie in the managed range. */
  lemma CellFits(s: Slab.Slab, m: seq<byte>, live: map<nat, nat>, a: nat)
    requires Placed(s) && Slab.Inv(s, m, live)
    requires a in live || (a == s.next && a < s.end)
    ensures InRange(a, s.size)
  {
    Slab.ReachableCell(s, m, live, a);
    Slab.CellBelow(s, Slab.CellCount(s.start, s.end, s.size), a);
  }

  /** An allocation panics exactly if the fault on the next cell is fatal: the store after the load does not fault. */
  lemma AllocPanicsIff(s: Slab.Slab, u: Mmu, request: nat)
    requires Inv(u) && (s.next < s.end ==> InRange(s.next, WORD))
    ensures Alloc(s, u, request) == None <==> s.next < s.end && TouchRange(u, s.next, WORD) == None
  {
    if s.next < s.end && TouchRange(u, s.next, WORD).Some? {
      TouchRangeKeeps(u, s.next, WORD);
      CoveredStays(TouchRange(u, s.next, WORD).value, s.next, WORD);
    }
  }

  /** Taking a link reads and clears it in the flat memory. */
  lemma LinkRefines(u: Mmu, a: nat)
    requires Inv(u) && InRange(a, WORD) && TakeLink(u, a).Some?
    ensures var (link, v) := TakeLink(u, a).value;
            && link == Load(Flat(u), a) && Inv(v) && Flat(v) == Store(Flat(u), a, 0)
            && u.pages.Keys <= v.pages.Keys && a / Frames.PAGE in v.pages
  {
    DoRefines(u, Read(a, WORD));
    var (bytes, v) := Do(u, Read(a, WORD)).value;
    assert Mapped(v, a / Frames.PAGE);
    DoRefines(v, Write(a, Encode(0, WORD)));
  }

  lemma AllocRefines(s: Slab.Slab, u: Mmu, live: map<nat, nat>, request: nat)
    requires Inv(u) && Placed(s) && Slab.Inv(s, Flat(u), live)
    requires Alloc(s, u, request).Some?
    ensures var (p, s', u') := Alloc(s, u, request).value;
            && Inv(u') && (p, s', Flat(u')) == Slab.Alloc(s, Flat(u), request)
            && u.pages.Keys <= u'.pages.Keys && (p != 0 ==> p / Frames.PAGE in u'.pages)
  {
    if s.next < s.end {
      CellFits(s, Flat(u), live, s.next);
      LinkRefines(u, s.next);
    }
  }

  lemma DeallocRefines(s: Slab.Slab, u: Mmu, live: map<nat, nat>, ptr: nat)
    requires Inv(u) && Placed(s) && Slab.Inv(s, Flat(u), live) && ptr in live
    requires Dealloc(s, u, ptr, live[ptr]).Some?
    ensures var (s', u') := Dealloc(s, u, ptr, live[ptr]).value;
            Inv(u') && (s', Flat(u')) == Slab.Dealloc(s, Flat(u), ptr, live[ptr]) && u.pages.Keys <= u'.pages.Keys
  {
    CellFits(s, Flat(u), live, ptr);
    DoRefines(u, Write(ptr, Encode(s.next, WORD)));
  }

  lemma StepRefines(w: World, e: Slab.Event)
    requires Inv(w.mmu) && Placed(w.slab) && Slab.Inv(w.slab, Flat(w.mmu), w.live)
    requires Slab.Allowed(FlatWorld(w), e) && Step(w, e).Some?
    ensures Inv(Step(w, e).value.mmu) && FlatWorld(Step(w, e).value) == Slab.Step(FlatWorld(w), e)
  {
    match e
    case Request(bytes) => AllocRefines(w.slab, w.mmu, w.live, bytes);
    case Release(ptr) => DeallocRefines(w.slab, w.mmu, w.live, ptr);
    case Write(addr, value) =>
      var p :| p in w.live && p <= addr < p + w.live[p];
      CellFits(w.slab, Flat(w.mmu), w.live, p);
      assert w.live[p] <= w.slab.size by {
        var free: seq<nat>, k: nat :| Slab.Shape(w.slab, Flat(w.mmu), w.live, free, k);
      }
      DoRefines(w.mmu, Access.Write(addr, [value]));
  }

  /** The composition: starting from a booted machine and a freshly initialised slab, every run of client
      events that does not exhaust physical memory does exactly what it would do on flat zeroed memory; so the
      link value 0 is sound although nobody ever cleared the heap. */
  lemma {:induction false} RunRefines(w: World, regions: seq<Frames.Region>, es: seq<Slab.Event>)
    requires Frames.GoodRegions(regions) && Booted(w.mmu, regions)
    requires Placed(w.slab) && w.slab.next == w.slab.start && w.slab.used == 0 && w.live == map[]
    requires Run(w, es).Some?
    requires Inv(w.mmu) && Slab.Legal(FlatWorld(w), es)
    ensures var v := Run(w, es).value;
            && Inv(v.mmu)
            && FlatWorld(v) == Slab.Run(FlatWorld(w), es)
            && Slab.Inv(v.slab, Flat(v.mmu), v.live)
  {
    BootIsZero(w.mmu, regions);
    assert Slab.Fresh(FlatWorld(w));
    Slab.RunKeepsInv(FlatWorld(w), es);
    if es != [] {
      var es' := es[..|es| - 1];
      RunRefines(w, regions, es');
      var v := Run(w, es').value;
      Slab.RunKeepsRegion(FlatWorld(w), es');
      StepRefines(v, es[|es| - 1]);
    }
  }
}
