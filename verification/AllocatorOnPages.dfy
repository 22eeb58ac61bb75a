/** The whole allocator on demand-paged memory: every load and store of a slab, of the fallback heap and of a client
    faults, is mapped and retried. */
module AllocatorOnPages {
  import opened Bytes
  import opened Wrappers
  import Frames
  import Slab
  import A = Allocator
  import HeapOnPages
  import opened Paging

  datatype World = World(slabs: seq<Slab.Slab>, mmu: Mmu, heapLo: nat, heapHi: nat, live: map<nat, A.Layout>)

  /** As `Allocator.Event`; the fallback heap's doings are the bytes it stores, in order. */
  datatype Event =
    | Request(layout: A.Layout, answer: nat, stores: seq<(nat, byte)>)
    | Release(ptr: nat, stores: seq<(nat, byte)>)
    | Write(addr: nat, value: byte)

  /** A sequence of byte stores; None is a kernel panic. */
  function StoreAll(u: Mmu, stores: seq<(nat, byte)>): (r: Option<Mmu>)
    decreases |stores|
  {
    if stores == [] then Some(u)
    else
      match Do(u, Access.Write(stores[0].0, [stores[0].1]))
      case None => None
      case Some((_, v)) => StoreAll(v, stores[1..])
  }

  function Step(w: World, e: Event): (r: Option<World>)
    requires |w.slabs| == A.SLABS
    ensures r.Some? ==> |r.value.slabs| == A.SLABS
  {
    match e
    case Request(l, answer, stores) =>
      var i := A.Class(l);
      if i < A.SLABS then
        match HeapOnPages.Alloc(w.slabs[i], w.mmu, l.size)
        case None => None
        case Some((p, s', u')) =>
          Some(w.(slabs := w.slabs[i := s'], mmu := u', live := if p == 0 then w.live else w.live[p := l]))
      else
        (match StoreAll(w.mmu, stores)
         case None => None
         case Some(u') => Some(w.(mmu := u', live := if answer == 0 then w.live else w.live[answer := l])))
    case Release(p, stores) =>
      if p !in w.live then Some(w) else
      var i := A.Class(w.live[p]);
      if i < A.SLABS then
        match HeapOnPages.Dealloc(w.slabs[i], w.mmu, p, w.live[p].size)
        case None => None
        case Some((s', u')) => Some(w.(slabs := w.slabs[i := s'], mmu := u', live := w.live - {p}))
      else
        (match StoreAll(w.mmu, stores)
         case None => None
         case Some(u') => Some(w.(mmu := u', live := w.live - {p})))
    case Write(a, value) =>
      (match Do(w.mmu, Access.Write(a, [value]))
       case None => None
       case Some((_, u')) => Some(w.(mmu := u')))
  }

  function Run(w: World, es: seq<Event>): (r: Option<World>)
    requires |w.slabs| == A.SLABS
    ensures r.Some? ==> |r.value.slabs| == A.SLABS
  {
    if es == [] then Some(w)
    else
      match Run(w, es[..|es| - 1])
      case None => None
      case Some(v) => Step(v, es[|es| - 1])
  }

  // ---- Seen flat ------------------------------------------------------------------------------

  ghost function FlatWorld(w: World): (v: A.World)
    requires Inv(w.mmu)
  {
    A.World(w.slabs, Flat(w.mmu), w.heapLo, w.heapHi, w.live)
  }

  function FlatStoreAll(m: seq<byte>, stores: seq<(nat, byte)>): (m': seq<byte>)
    ensures |m'| == |m|
    decreases |stores|
  {
    if stores == [] then m else FlatStoreAll(Put(m, stores[0].0, [stores[0].1]), stores[1..])
  }

  /** The event as the flat allocator sees it: the memory the fallback heap leaves behind, if it is asked. */
  ghost function FlatEvent(w: World, e: Event): (f: A.Event)
    requires Inv(w.mmu)
  {
    match e
    case Request(l, answer, stores) =>
      A.Request(l, answer, if A.Class(l) < A.SLABS then [] else FlatStoreAll(Flat(w.mmu), stores))
    case Release(p, stores) => A.Release(p, FlatStoreAll(Flat(w.mmu), stores))
    case Write(a, value) => A.Write(a, value)
  }

  /** The fallback heap stores only inside its region. */
  predicate InHeap(w: World, stores: seq<(nat, byte)>) {
    forall i :: 0 <= i < |stores| ==> w.heapLo <= stores[i].0 < w.heapHi
  }

  ghost predicate Allowed(w: World, e: Event)
    requires Inv(w.mmu)
  {
    && A.Allowed(FlatWorld(w), FlatEvent(w, e))
    && (!e.Write? ==> InHeap(w, e.stores))
  }

  /** What is asked of clients. */
  ghost predicate Polite(w: World, e: Event) {
    match e
    case Request(l, _, _) => A.ValidLayout(l)
    case Release(p, _) => p in w.live
    case Write(a, _) => A.Owned(w.live, a)
  }

  /** A client writes into the fallback heap's free list. */
  ghost predicate Trespass(w: World, e: Event) { e.Write? && A.Stray(w.live, w.heapLo, w.heapHi, e.addr) }

  /** The regions lie in the managed range. */
  ghost predicate Placed(w: World) {
    && |w.slabs| == A.SLABS && MANAGED_START <= w.heapLo
    && (forall i :: 0 <= i < A.SLABS ==> MANAGED_START <= w.slabs[i].start)
  }

  // ---- Each step refines ----------------------------------------------------------------------

  lemma {:induction false} StoreAllRefines(u: Mmu, stores: seq<(nat, byte)>)
    requires Inv(u) && (forall i :: 0 <= i < |stores| ==> Managed(stores[i].0)) && StoreAll(u, stores).Some?
    ensures var v := StoreAll(u, stores).value;
            Inv(v) && Flat(v) == FlatStoreAll(Flat(u), stores) && u.pages.Keys <= v.pages.Keys
    decreases |stores|
  {
    if stores != [] {
      var x := Access.Write(stores[0].0, [stores[0].1]);
      assert Managed(stores[0].0);
      DoRefines(u, x);
      StoreAllRefines(Do(u, x).value.1, stores[1..]);
    }
  }

  lemma SlabPlaced(w: World, i: nat)
    requires Inv(w.mmu) && Placed(w) && A.Good(FlatWorld(w)) && i < A.SLABS
    ensures HeapOnPages.Placed(w.slabs[i])
  {
    assert A.Cut(FlatWorld(w).slabs[i], i);
    if i < A.LAST { A.FittingLimit(w.slabs[i], i); }
  }

  /** Every live slab cell is on a page that has been touched. */
  ghost predicate LiveMapped(w: World) {
    forall p :: p in w.live && A.Class(w.live[p]) < A.SLABS ==> p / Frames.PAGE in w.mmu.pages
  }

  ghost predicate Ok(w: World) { Inv(w.mmu) && Placed(w) && A.Inv(FlatWorld(w)) && LiveMapped(w) }

  /** What one step keeps and refines. */
  ghost predicate Refined(w: World, e: Event, w': World)
    requires Inv(w.mmu) && |w.slabs| == A.SLABS
  {
    && Inv(w'.mmu) && FlatWorld(w') == A.Step(FlatWorld(w), FlatEvent(w, e)) && LiveMapped(w')
    && w.mmu.pages.Keys <= w'.mmu.pages.Keys
  }

  lemma SlabRequestRefines(w: World, e: Event)
    requires Ok(w) && e.Request? && A.Class(e.layout) < A.SLABS && Allowed(w, e) && Step(w, e).Some?
    ensures Refined(w, e, Step(w, e).value)
  {
    var i := A.Class(e.layout);
    SlabPlaced(w, i);
    assert A.SlabOk(FlatWorld(w), i);
    HeapOnPages.AllocRefines(w.slabs[i], w.mmu, A.LiveOf(w.live, i), e.layout.size);
  }

  lemma SlabReleaseRefines(w: World, e: Event)
    requires Ok(w) && e.Release? && Allowed(w, e) && A.Class(w.live[e.ptr]) < A.SLABS && Step(w, e).Some?
    ensures Refined(w, e, Step(w, e).value)
  {
    var i := A.Class(w.live[e.ptr]);
    SlabPlaced(w, i);
    assert A.SlabOk(FlatWorld(w), i);
    HeapOnPages.DeallocRefines(w.slabs[i], w.mmu, A.LiveOf(w.live, i), e.ptr);
  }

  lemma HeapStepRefines(w: World, e: Event)
    requires Ok(w) && !e.Write? && Allowed(w, e) && Step(w, e).Some?
    requires if e.Request? then A.Class(e.layout) == A.SLABS else A.Class(w.live[e.ptr]) == A.SLABS
    ensures Refined(w, e, Step(w, e).value)
  {
    StoreAllRefines(w.mmu, e.stores);
  }

  lemma WriteRefines(w: World, e: Event)
    requires Ok(w) && e.Write? && Allowed(w, e) && Step(w, e).Some?
    ensures Refined(w, e, Step(w, e).value)
  {
    OwnedInRange(w, e.addr);
    DoRefines(w.mmu, Access.Write(e.addr, [e.value]));
  }

  /** What a client holds lies in the managed range. */
  lemma OwnedInRange(w: World, a: nat)
    requires Inv(w.mmu) && Placed(w) && A.Inv(FlatWorld(w)) && A.Owned(w.live, a)
    ensures InRange(a, 1)
  {
    var p :| p in w.live && p <= a < p + w.live[p].size;
    var i := A.Class(w.live[p]);
    if i < A.SLABS {
      assert A.SlabOk(FlatWorld(w), i);
      A.SlabBlock(FlatWorld(w), i, p);
      A.ClassFits(w.live[p], 0);
      SlabPlaced(w, i);
    } else {
      assert A.HeapBlock(FlatWorld(w), p) && A.HeapPlaced(FlatWorld(w), p);
    }
  }

  lemma StepRefines(w: World, e: Event)
    requires Ok(w) && Allowed(w, e) && Step(w, e).Some?
    ensures Refined(w, e, Step(w, e).value) && Ok(Step(w, e).value)
  {
    match e {
      case Request(l, _, _) =>
        if A.Class(l) < A.SLABS { SlabRequestRefines(w, e); } else { HeapStepRefines(w, e); }
      case Release(p, _) =>
        if A.Class(w.live[p]) < A.SLABS { SlabReleaseRefines(w, e); } else { HeapStepRefines(w, e); }
      case Write(_, _) => WriteRefines(w, e);
    }
    A.StepKeeps(FlatWorld(w), FlatEvent(w, e));
    StepPlaced(w, e);
  }

  lemma StepPlaced(w: World, e: Event)
    requires Placed(w) && Step(w, e).Some?
    ensures Placed(Step(w, e).value)
  {
  }

  // ---- Runs -----------------------------------------------------------------------------------

  /** No client has written into the fallback heap's free list. */
  ghost predicate Clean(w: World, es: seq<Event>)
    requires |w.slabs| == A.SLABS
  {
    es == [] || (&& Clean(w, es[..|es| - 1])
                 && (Run(w, es[..|es| - 1]).Some? ==> !Trespass(Run(w, es[..|es| - 1]).value, es[|es| - 1])))
  }

  /** Clients keep to their side throughout, the fallback heap as long as its free list is its own. */
  ghost predicate Legal(w: World, es: seq<Event>)
    requires |w.slabs| == A.SLABS
  {
    es == [] || (&& Legal(w, es[..|es| - 1])
                 && (Run(w, es[..|es| - 1]).Some? ==>
                       var v := Run(w, es[..|es| - 1]).value;
                       && Polite(v, es[|es| - 1])
                       && (Clean(w, es[..|es| - 1]) && Inv(v.mmu) ==> Allowed(v, es[|es| - 1]))))
  }

  /** The run as the flat allocator sees it. */
  ghost function FlatEvents(w: World, es: seq<Event>): (fs: seq<A.Event>)
    requires |w.slabs| == A.SLABS
    ensures |fs| == |es|
  {
    if es == [] then []
    else
      var before := Run(w, es[..|es| - 1]);
      FlatEvents(w, es[..|es| - 1])
      + [if before.Some? && Inv(before.value.mmu) then FlatEvent(before.value, es[|es| - 1]) else A.Write(0, 0)]
  }

  lemma OneMoreEvent(w: World, es: seq<Event>, e: Event)
    requires |w.slabs| == A.SLABS && Run(w, es).Some? && Inv(Run(w, es).value.mmu)
    ensures var v := Run(w, es).value;
            && Run(w, es + [e]) == Step(v, e) && (Legal(w, es) && Allowed(v, e) ==> Legal(w, es + [e]))
            && (Clean(w, es + [e]) <==> Clean(w, es) && !Trespass(v, e))
            && FlatEvents(w, es + [e]) == FlatEvents(w, es) + [FlatEvent(v, e)]
  {
    assert (es + [e])[..|es + [e]| - 1] == es;
  }

  /** The whole allocator on demand-paged memory is the whole allocator on flat memory: every legal run that leaves the
      fallback heap's free list alone and does not exhaust physical memory is, step for step, such a run there. */
  lemma {:induction false} RunRefines(w: World, es: seq<Event>)
    requires Ok(w) && A.Fresh(FlatWorld(w)) && Legal(w, es) && Clean(w, es) && Run(w, es).Some?
    ensures var v := Run(w, es).value;
            && Ok(v) && FlatWorld(v) == A.Run(FlatWorld(w), FlatEvents(w, es))
            && w.mmu.pages.Keys <= v.mmu.pages.Keys
            && A.Legal(FlatWorld(w), FlatEvents(w, es)) && A.Clean(FlatWorld(w), FlatEvents(w, es))
  {
    if es != [] {
      var es' := es[..|es| - 1];
      RunRefines(w, es');
      var v := Run(w, es').value;
      StepRefines(v, es[|es| - 1]);
      assert FlatEvents(w, es)[..|es| - 1] == FlatEvents(w, es');
    }
  }
}
