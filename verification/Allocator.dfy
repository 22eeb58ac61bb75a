/** The global allocator: seven slabs side by side and a fallback heap behind them. */
module Allocator {
  import opened Bytes
  import opened Sums
  import opened Arith
  import Slab
  import Paging

  const SLABS: nat := 7
  const SIZES: seq<nat> := [16, 32, 64, 128, 256, 512, 2048]

  /** The slab next to the fallback heap. */
  const LAST: nat := 6

  datatype Layout = Layout(size: nat, align: nat)

  /** What the language guarantees of a layout handed to a global allocator. */
  ghost predicate ValidLayout(l: Layout) { l.size > 0 && exists k: nat :: l.align == Pow2(k) }

  function Needed(l: Layout): (n: nat) { if l.size >= l.align then l.size else l.align }

  /** `Inner::slab`: the first slab whose cells are large enough, or SLABS for the fallback heap. */
  function Class(l: Layout, from: nat := 0): (i: nat)
    requires from <= SLABS
    ensures from <= i <= SLABS
    decreases SLABS - from
  {
    if from == SLABS || SIZES[from] >= Needed(l) then from else Class(l, from + 1)
  }

  /** `[heapLo, heapHi)` is the fallback heap; `live` is what clients hold. */
  datatype World = World(slabs: seq<Slab.Slab>, mem: seq<byte>, heapLo: nat, heapHi: nat, live: map<nat, Layout>)

  /** `Allocator::init`; `mem` is the memory as the fallback heap's own `init` leaves it. */
  function Init(start: nat, size: nat, mem: seq<byte>): (w: World)
  {
    var region := size / (SLABS + 1);
    World(seq(SLABS, i requires 0 <= i < SLABS => InitSlab(start + region * i, region, i)),
          mem, start + region * SLABS, start + region * SLABS + region, map[])
  }

  /** `SlabAllocator::new` followed by `init`. */
  function InitSlab(start: nat, region: nat, i: nat): (s: Slab.Slab)
    requires i < SLABS
  {
    Slab.Slab(start, start + region, start, SIZES[i], 0)
  }

  /** The part of `live` that slab `i` (or, for SLABS, the heap) has served. */
  ghost function LiveOf(live: map<nat, Layout>, i: nat): (m: map<nat, nat>)
  {
    map p | p in live && Class(live[p]) == i :: live[p].size
  }

  // ---- Steps ----------------------------------------------------------------------------------

  /** Client events. Where the fallback heap serves the event, `answer` and `after` are its pointer and the
      memory it leaves behind; the slabs ignore them. */
  datatype Event =
    | Request(layout: Layout, answer: nat, after: seq<byte>)
    | Release(ptr: nat, after: seq<byte>)
    | Write(addr: nat, value: byte)

  ghost predicate HeapBlock(w: World, p: nat) { p in w.live && Class(w.live[p]) == SLABS }

  ghost predicate Apart(p: nat, n: nat, q: nat, m: nat) { p + n <= q || q + m <= p }

  /** Contract of the fallback heap: it answers null or a fitting block clear of its live ones... */
  ghost predicate HeapAnswer(w: World, l: Layout, p: nat) {
    p == 0 || (&& w.heapLo <= p && p + l.size <= w.heapHi && l.align > 0 && p % l.align == 0
               && forall q: nat :: HeapBlock(w, q) ==> Apart(p, l.size, q, w.live[q].size))
  }

  /** ...and it writes only inside its own region, outside its live blocks. */
  ghost predicate HeapWrites(w: World, m': seq<byte>) {
    && |m'| == |w.mem|
    && (forall a :: 0 <= a < |w.mem| && !(w.heapLo <= a < w.heapHi) ==> m'[a] == w.mem[a])
    && (forall q: nat, a: nat :: HeapBlock(w, q) && q <= a < q + w.live[q].size && a < |w.mem| ==> m'[a] == w.mem[a])
  }

  ghost predicate Owned(live: map<nat, Layout>, a: nat) {
    exists p :: p in live && p <= a < p + live[p].size
  }

  /** What is asked of clients: proper layouts, releases of what they hold, writes inside what they hold. */
  ghost predicate Polite(w: World, e: Event) {
    match e
    case Request(l, _, _) => ValidLayout(l)
    case Release(p, _) => p in w.live
    case Write(a, _) => Owned(w.live, a)
  }

  /** What is asked of the fallback heap, where it serves the event. */
  ghost predicate HeapKeeps(w: World, e: Event) {
    match e
    case Request(l, answer, after) => Class(l) == SLABS ==> HeapAnswer(w, l, answer) && HeapWrites(w, after)
    case Release(p, after) => HeapBlock(w, p) ==> HeapWrites(w, after)
    case Write(_, _) => true
  }

  ghost predicate Allowed(w: World, e: Event) { Polite(w, e) && HeapKeeps(w, e) }

  /** A byte of the fallback heap's region that belongs to none of its blocks, but to its free list. */
  ghost predicate Stray(live: map<nat, Layout>, heapLo: nat, heapHi: nat, a: nat) {
    heapLo <= a < heapHi && forall q :: q in live && Class(live[q]) == SLABS ==> !(q <= a < q + live[q].size)
  }

  /** A client writes there. */
  ghost predicate Trespass(w: World, e: Event) { e.Write? && Stray(w.live, w.heapLo, w.heapHi, e.addr) }

  /** `GlobalAlloc::alloc` and `dealloc`, and client writes. */
  function Step(w: World, e: Event): (w': World)
    requires |w.slabs| == SLABS
    ensures |w'.slabs| == SLABS
  {
    match e
    case Request(l, answer, after) =>
      var i := Class(l);
      if i < SLABS then
        var (p, s', m') := Slab.Alloc(w.slabs[i], w.mem, l.size);
        w.(slabs := w.slabs[i := s'], mem := m', live := if p == 0 then w.live else w.live[p := l])
      else
        w.(mem := after, live := if answer == 0 then w.live else w.live[answer := l])
    case Release(p, after) =>
      if p !in w.live then w else
      var i := Class(w.live[p]);
      if i < SLABS then
        var (s', m') := Slab.Dealloc(w.slabs[i], w.mem, p, w.live[p].size);
        w.(slabs := w.slabs[i := s'], mem := m', live := w.live - {p})
      else
        w.(mem := after, live := w.live - {p})
    case Write(a, value) => w.(mem := Put(w.mem, a, [value]))
  }

  // ---- Invariant ------------------------------------------------------------------------------

  /** Slab `i` holds a whole number of cells. */
  ghost predicate Fitting(s: Slab.Slab, i: nat)
    requires i < SLABS
  {
    s.size == SIZES[i] && 0 < s.start <= s.end && (s.end - s.start) % s.size == 0
  }

  /** Slab `i` holds whole cells, except that the last cell of the last slab may stick out of its region, though not
      its link word. */
  ghost predicate Cut(s: Slab.Slab, i: nat)
    requires i < SLABS
  {
    && s.size == SIZES[i] && 0 < s.start <= s.end && Slab.Reach(s) == s.end
    && (i < LAST ==> (s.end - s.start) % s.size == 0)
  }

  /** Every slab starts on a multiple of its cell size. */
  ghost predicate StartsAligned(w: World)
    requires |w.slabs| == SLABS
  {
    forall i :: 0 <= i < SLABS ==> w.slabs[i].start % SIZES[i] == 0
  }

  /** The regions follow one another without overlap. */
  ghost predicate Good(w: World) {
    && |w.slabs| == SLABS
    && (forall i :: 0 <= i < SLABS ==> Cut(w.slabs[i], i) && w.slabs[i].end <= w.heapLo)
    && (forall i, j :: 0 <= i < j < SLABS ==> w.slabs[i].end <= w.slabs[j].start)
    && 0 < w.heapLo <= w.heapHi <= |w.mem| < Pow256(WORD)
    && Slab.Limit(w.slabs[LAST]) <= |w.mem|
  }

  /** Block `p` lies in the heap region, aligned. */
  ghost predicate HeapPlaced(w: World, p: nat)
    requires p in w.live
  {
    w.heapLo <= p && p + w.live[p].size <= w.heapHi && w.live[p].align > 0 && p % w.live[p].align == 0
  }

  ghost predicate HeapOk(w: World) {
    && (forall p: nat :: HeapBlock(w, p) ==> HeapPlaced(w, p))
    && (forall p: nat, q: nat :: HeapBlock(w, p) && HeapBlock(w, q) && p != q ==>
          Apart(p, w.live[p].size, q, w.live[q].size))
  }

  ghost predicate LayoutsOk(w: World) {
    forall p :: p in w.live ==> ValidLayout(w.live[p])
  }

  ghost predicate SlabOk(w: World, i: nat)
    requires i < |w.slabs|
  {
    Slab.Inv(w.slabs[i], w.mem, LiveOf(w.live, i))
  }

  ghost predicate SlabsOk(w: World)
    requires |w.slabs| == SLABS
  {
    forall i :: 0 <= i < SLABS ==> SlabOk(w, i)
  }

  ghost predicate Inv(w: World) {
    Good(w) && LayoutsOk(w) && SlabsOk(w) && HeapOk(w)
  }

  // ---- Region facts ---------------------------------------------------------------------------

  lemma FittingLimit(s: Slab.Slab, i: nat)
    requires i < SLABS && Fitting(s, i)
    ensures Slab.Limit(s) == s.end && Cut(s, i)
  {
    Slab.FitsIff(s.start, s.end, s.size);
    Slab.ReachBelowLimit(s);
  }

  /** A cell lies in its region, but for what the last one of the last slab may have beyond its link word. */
  lemma CellPlace(s: Slab.Slab, i: nat, p: nat)
    requires i < SLABS && Cut(s, i) && Slab.IsCell(s, Slab.CellCount(s.start, s.end, s.size), p)
    ensures s.start <= p && p + WORD <= s.end && p + s.size <= Slab.Limit(s)
    ensures i < LAST || Fitting(s, i) || p != LastCell(s) ==> p + s.size <= s.end
  {
    var n := Slab.CellCount(s.start, s.end, s.size);
    Slab.CellBelow(s, n, p);
    Slab.LinkInReach(s, p);
    if i < LAST || Fitting(s, i) {
      FittingLimit(s, i);
    } else if p != LastCell(s) {
      var c: nat :| c < n && Slab.Cell(s.start, s.size, c) == p;
      Slab.CellOrder(s.start, s.size, c, n - 1);
      Slab.CellCountExact(s.start, s.end, s.size, n - 1);
    }
  }

  /** The cell `alloc` carves last. */
  function LastCell(s: Slab.Slab): (p: nat)
    requires s.size > 0
  {
    var n := Slab.CellCount(s.start, s.end, s.size);
    if n == 0 then s.start else Slab.Cell(s.start, s.size, n - 1)
  }

  /** A block served by slab `i` is one of its cells. */
  lemma SlabBlock(w: World, i: nat, p: nat)
    requires Good(w) && i < SLABS && SlabOk(w, i)
    requires p in w.live && Class(w.live[p]) == i
    ensures var s := w.slabs[i];
            && Slab.IsCell(s, Slab.CellCount(s.start, s.end, s.size), p)
            && s.start <= p && p + WORD <= s.end && p + s.size <= Slab.Limit(s)
            && (i < LAST || Fitting(s, i) || p != LastCell(s) ==> p + s.size <= s.end)
  {
    var s := w.slabs[i];
    assert Cut(s, i);
    Slab.ReachableCell(s, w.mem, LiveOf(w.live, i), p);
    CellPlace(s, i, p);
  }

  lemma {:induction false} ClassFits(l: Layout, from: nat)
    requires from <= SLABS && Class(l, from) < SLABS
    ensures SIZES[Class(l, from)] >= Needed(l)
    decreases SLABS - from
  {
    if SIZES[from] < Needed(l) { ClassFits(l, from + 1); }
  }

  lemma {:induction false} EarlierTooSmall(l: Layout, from: nat)
    requires from <= SLABS
    ensures forall j :: from <= j < Class(l, from) ==> SIZES[j] < l.size || SIZES[j] < l.align
    decreases SLABS - from
  {
    if from < SLABS && SIZES[from] < Needed(l) { EarlierTooSmall(l, from + 1); }
  }

  /** First fit: the slab chosen holds the layout and no slab before it does; the fallback heap is asked exactly for
      what exceeds 2048 in size or alignment. */
  lemma FirstFit(l: Layout)
    ensures Class(l) < SLABS ==> l.size <= SIZES[Class(l)] && l.align <= SIZES[Class(l)]
    ensures forall j :: 0 <= j < Class(l) ==> SIZES[j] < l.size || SIZES[j] < l.align
    ensures Class(l) == SLABS <==> l.size > 2048 || l.align > 2048
  {
    EarlierTooSmall(l, 0);
    if Class(l) < SLABS { ClassFits(l, 0); }
    assert SIZES[LAST] == 2048;
  }

  // ---- Every step keeps the invariant ---------------------------------------------------------

  /** Slab `i` keeps its shape when memory changes only inside another region. */
  lemma OtherSlabKeeps(w: World, i: nat, m': seq<byte>)
    requires Good(w) && i < SLABS && SlabOk(w, i)
    requires |m'| == |w.mem|
    requires forall a :: w.slabs[i].start <= a < w.slabs[i].end && a < |m'| ==> m'[a] == w.mem[a]
    ensures Slab.Inv(w.slabs[i], m', LiveOf(w.live, i))
  {
    assert Cut(w.slabs[i], i);
    Slab.FrameKeepsInv(w.slabs[i], w.mem, m', LiveOf(w.live, i));
  }

  lemma SlabsApart(w: World, i: nat, j: nat)
    requires Good(w) && i < SLABS && j < SLABS && i != j
    ensures w.slabs[i].end <= w.slabs[j].start || w.slabs[j].end <= w.slabs[i].start
  {
    if i < j { assert w.slabs[i].end <= w.slabs[j].start; } else { assert w.slabs[j].end <= w.slabs[i].start; }
  }

  /** Every live block starts inside the region of whatever serves its layout. */
  lemma BlockPlace(w: World, p: nat)
    requires Inv(w) && p in w.live
    ensures var i := Class(w.live[p]);
            if i < SLABS then w.slabs[i].start <= p < w.slabs[i].end else w.heapLo <= p < w.heapHi
  {
    var i := Class(w.live[p]);
    if i < SLABS {
      assert SlabOk(w, i);
      SlabBlock(w, i, p);
    } else {
      assert HeapBlock(w, p) && HeapPlaced(w, p) && ValidLayout(w.live[p]);
    }
  }

  /** A cell of slab `j` that the slab does not have out is held by nobody. */
  lemma FreshCell(w: World, j: nat, p: nat)
    requires Inv(w) && j < SLABS
    requires w.slabs[j].start <= p < w.slabs[j].end && p !in LiveOf(w.live, j)
    ensures p !in w.live
  {
    if p in w.live {
      var i := Class(w.live[p]);
      BlockPlace(w, p);
      if i < SLABS && i != j { SlabsApart(w, i, j); }
    }
  }

  /** Putting a block of slab `j` into `live`, or taking it out, concerns only slab `j`. */
  lemma LiveOfOthers(live: map<nat, Layout>, p: nat, l: Layout, i: nat)
    requires p !in live && i <= SLABS
    ensures LiveOf(live[p := l], i) == if Class(l) == i then LiveOf(live, i)[p := l.size] else LiveOf(live, i)
  {
  }

  lemma LiveOfRemove(live: map<nat, Layout>, p: nat, i: nat)
    requires p in live && i <= SLABS
    ensures LiveOf(live - {p}, i) == if Class(live[p]) == i then LiveOf(live, i) - {p} else LiveOf(live, i)
  {
  }

  /** What slab `j` serves next is one of its cells and held by nobody. */
  lemma NextCell(w: World, j: nat, request: nat)
    requires Inv(w) && j < SLABS && request <= SIZES[j]
    ensures var s := w.slabs[j];
            var (p, s', m') := Slab.Alloc(s, w.mem, request);
            && Slab.Inv(s', m', if p == 0 then LiveOf(w.live, j) else LiveOf(w.live, j)[p := request])
            && (p == 0 ==> s' == s && m' == w.mem)
            && (p != 0 ==> s.start <= p && p + WORD <= s.end && p + s.size <= Slab.Limit(s) && p !in w.live)
  {
    var s := w.slabs[j];
    assert SlabOk(w, j) && Cut(s, j);
    var (p, s', m') := Slab.Alloc(s, w.mem, request);
    Slab.AllocKeepsInv(s, w.mem, LiveOf(w.live, j), request);
    if p != 0 {
      CellPlace(s, j, p);
      FreshCell(w, j, p);
    }
  }

  /** After slab `j` has taken or given back `p`, writing only inside the cell, the others are as they were. */
  lemma OtherSlabsKeep(w: World, w': World, j: nat, p: nat)
    requires Inv(w) && j < SLABS && |w'.slabs| == SLABS && |w'.mem| == |w.mem|
    requires w.slabs[j].start <= p && p + WORD <= w.slabs[j].end
    requires forall a :: 0 <= a < |w.mem| && !(p <= a < p + WORD) ==> w'.mem[a] == w.mem[a]
    requires forall i :: 0 <= i < SLABS && i != j ==>
               w'.slabs[i] == w.slabs[i] && LiveOf(w'.live, i) == LiveOf(w.live, i)
    requires SlabOk(w', j)
    ensures SlabsOk(w')
  {
    forall i | 0 <= i < SLABS ensures SlabOk(w', i) {
      if i != j {
        assert SlabOk(w, i);
        SlabsApart(w, i, j);
        OtherSlabKeeps(w, i, w'.mem);
      }
    }
  }

  /** The regions do not move. */
  lemma GoodKeeps(w: World, w': World)
    requires Good(w) && |w'.slabs| == SLABS && |w'.mem| == |w.mem| && w'.heapLo == w.heapLo && w'.heapHi == w.heapHi
    requires forall i :: 0 <= i < SLABS ==>
               w'.slabs[i] == w.slabs[i].(next := w'.slabs[i].next, used := w'.slabs[i].used)
    ensures Good(w')
  {
    forall i | 0 <= i < SLABS ensures Cut(w'.slabs[i], i) && w'.slabs[i].end <= w'.heapLo {
      assert Cut(w.slabs[i], i) && Slab.Reach(w'.slabs[i]) == Slab.Reach(w.slabs[i]);
    }
    assert Slab.Limit(w'.slabs[LAST]) == Slab.Limit(w.slabs[LAST]);
    forall i, j | 0 <= i < j < SLABS ensures w'.slabs[i].end <= w'.slabs[j].start {
      assert w.slabs[i].end <= w.slabs[j].start;
    }
  }

  /** Slab traffic leaves the heap's blocks alone. */
  lemma HeapOkKeeps(w: World, w': World)
    requires HeapOk(w) && w'.heapLo == w.heapLo && w'.heapHi == w.heapHi
    requires forall q: nat :: HeapBlock(w', q) ==> HeapBlock(w, q) && w'.live[q] == w.live[q]
    ensures HeapOk(w')
  {
    forall p: nat | HeapBlock(w', p) ensures HeapPlaced(w', p) { assert HeapPlaced(w, p); }
  }

  lemma SlabServes(w: World, w': World, j: nat, p: nat, l: Layout)
    requires Inv(w) && ValidLayout(l) && j == Class(l) < SLABS
    requires w.slabs[j].start <= p && p + WORD <= w.slabs[j].end && p !in w.live
    requires |w'.slabs| == SLABS && w'.slabs == w.slabs[j := w'.slabs[j]] && w'.live == w.live[p := l]
    requires w'.slabs[j] == w.slabs[j].(next := w'.slabs[j].next, used := w'.slabs[j].used)
    requires w'.heapLo == w.heapLo && w'.heapHi == w.heapHi && |w'.mem| == |w.mem|
    requires forall a :: 0 <= a < |w.mem| && !(p <= a < p + WORD) ==> w'.mem[a] == w.mem[a]
    requires Slab.Inv(w'.slabs[j], w'.mem, LiveOf(w.live, j)[p := l.size])
    ensures Inv(w')
  {
    GoodKeeps(w, w');
    ServedLive(w.live, p, l);
    assert SlabOk(w', j);
    OtherSlabsKeep(w, w', j, p);
    assert HeapOk(w') by { HeapOkKeeps(w, w'); }
  }

  lemma ServedLive(live: map<nat, Layout>, p: nat, l: Layout)
    requires p !in live
    ensures forall i :: 0 <= i < SLABS ==>
              LiveOf(live[p := l], i) == if i == Class(l) then LiveOf(live, i)[p := l.size] else LiveOf(live, i)
  {
    forall i | 0 <= i < SLABS
      ensures LiveOf(live[p := l], i) == if i == Class(l) then LiveOf(live, i)[p := l.size] else LiveOf(live, i)
    {
      LiveOfOthers(live, p, l, i);
    }
  }

  lemma SlabRequestKeeps(w: World, l: Layout)
    requires Inv(w) && ValidLayout(l) && Class(l) < SLABS
    ensures Inv(Step(w, Request(l, 0, [])))
  {
    var j := Class(l);
    var w' := Step(w, Request(l, 0, []));
    var (p, s', m') := Slab.Alloc(w.slabs[j], w.mem, l.size);
    ClassFits(l, 0);
    NextCell(w, j, l.size);
    if p == 0 {
      assert w'.slabs == w.slabs;
    } else {
      SlabServes(w, w', j, p, l);
    }
  }

  lemma SlabReleaseKeeps(w: World, p: nat)
    requires Inv(w) && p in w.live && Class(w.live[p]) < SLABS
    ensures Inv(Step(w, Release(p, [])))
  {
    var j := Class(w.live[p]);
    var w' := Step(w, Release(p, []));
    assert SlabOk(w, j);
    Slab.DeallocKeepsInv(w.slabs[j], w.mem, LiveOf(w.live, j), p);
    SlabBlock(w, j, p);
    GoodKeeps(w, w');
    forall i | 0 <= i < SLABS
      ensures LiveOf(w'.live, i) == if i == j then LiveOf(w.live, i) - {p} else LiveOf(w.live, i)
    {
      LiveOfRemove(w.live, p, i);
    }
    OtherSlabsKeep(w, w', j, p);
    HeapOkKeeps(w, w');
  }

  /** Heap traffic leaves every slab alone. */
  lemma HeapTrafficKeeps(w: World, w': World)
    requires Inv(w) && w'.slabs == w.slabs && HeapWrites(w, w'.mem)
    requires forall i :: 0 <= i < SLABS ==> LiveOf(w'.live, i) == LiveOf(w.live, i)
    ensures SlabsOk(w')
  {
    forall i | 0 <= i < SLABS ensures SlabOk(w', i) {
      assert SlabOk(w, i);
      OtherSlabKeeps(w, i, w'.mem);
    }
  }

  lemma HeapRequestKeeps(w: World, l: Layout, answer: nat, after: seq<byte>)
    requires Inv(w) && Class(l) == SLABS && Allowed(w, Request(l, answer, after))
    ensures Inv(Step(w, Request(l, answer, after)))
  {
    var w' := Step(w, Request(l, answer, after));
    GoodKeeps(w, w');
    if answer == 0 {
      HeapTrafficKeeps(w, w');
      HeapOkKeeps(w, w');
    } else {
      HeapAnswerNew(w, l, answer);
      forall i | 0 <= i < SLABS ensures LiveOf(w'.live, i) == LiveOf(w.live, i) {
        LiveOfOthers(w.live, answer, l, i);
      }
      HeapTrafficKeeps(w, w');
      HeapOkGrows(w, w', answer, l);
    }
  }

  lemma HeapOkGrows(w: World, w': World, p: nat, l: Layout)
    requires HeapOk(w) && w'.heapLo == w.heapLo && w'.heapHi == w.heapHi
    requires p !in w.live && w'.live == w.live[p := l] && Class(l) == SLABS && p != 0 && HeapAnswer(w, l, p)
    ensures HeapOk(w')
  {
    forall q: nat | HeapBlock(w', q) ensures HeapPlaced(w', q) {
      if q != p { assert HeapBlock(w, q) && HeapPlaced(w, q); }
    }
    forall q: nat, r: nat | HeapBlock(w', q) && HeapBlock(w', r) && q != r
      ensures Apart(q, w'.live[q].size, r, w'.live[r].size)
    {
      assert q != p ==> HeapBlock(w, q);
      assert r != p ==> HeapBlock(w, r);
    }
  }

  lemma HeapReleaseKeeps(w: World, p: nat, after: seq<byte>)
    requires Inv(w) && p in w.live && Class(w.live[p]) == SLABS && HeapWrites(w, after)
    ensures Inv(Step(w, Release(p, after)))
  {
    var w' := Step(w, Release(p, after));
    GoodKeeps(w, w');
    forall i | 0 <= i < SLABS ensures LiveOf(w'.live, i) == LiveOf(w.live, i) { LiveOfRemove(w.live, p, i); }
    HeapTrafficKeeps(w, w');
    HeapOkKeeps(w, w');
  }

  lemma WriteKeeps(w: World, a: nat, value: byte)
    requires Inv(w) && Owned(w.live, a)
    ensures Inv(Step(w, Write(a, value)))
  {
    var w' := Step(w, Write(a, value));
    var p :| p in w.live && p <= a < p + w.live[p].size;
    OwnedPlace(w, p, a);
    GoodKeeps(w, w');
    HeapOkKeeps(w, w');
    forall i | 0 <= i < SLABS ensures SlabOk(w', i) { WriteKeepsSlab(w, p, a, w'.mem, i); }
  }

  /** A byte of a block lies in the region of what served it, or past the last slab. */
  lemma OwnedPlace(w: World, p: nat, a: nat)
    requires Inv(w) && p in w.live && p <= a < p + w.live[p].size
    ensures var j := Class(w.live[p]);
            if j < SLABS then w.slabs[j].start <= a && (j < LAST ==> a < w.slabs[j].end) else w.heapLo <= a
  {
    var j := Class(w.live[p]);
    if j < SLABS {
      assert SlabOk(w, j);
      SlabBlock(w, j, p);
      ClassFits(w.live[p], 0);
    } else {
      BlockPlace(w, p);
    }
  }

  lemma WriteKeepsSlab(w: World, p: nat, a: nat, m': seq<byte>, i: nat)
    requires Inv(w) && p in w.live && p <= a < p + w.live[p].size && i < SLABS
    requires |m'| == |w.mem| && forall b :: 0 <= b < |m'| && b != a ==> m'[b] == w.mem[b]
    ensures Slab.Inv(w.slabs[i], m', LiveOf(w.live, i))
  {
    var j := Class(w.live[p]);
    assert SlabOk(w, i);
    if i == j {
      assert LiveOf(w.live, i)[p] == w.live[p].size;
      Slab.FrameKeepsInv(w.slabs[i], w.mem, m', LiveOf(w.live, i));
    } else {
      OwnedPlace(w, p, a);
      if j < SLABS { SlabsApart(w, i, j); }
      OtherSlabKeeps(w, i, m');
    }
  }

  lemma StepKeeps(w: World, e: Event)
    requires Inv(w) && Allowed(w, e)
    ensures Inv(Step(w, e))
  {
    match e
    case Request(l, answer, after) =>
      if Class(l) < SLABS { SlabRequestKeeps(w, l); } else { HeapRequestKeeps(w, l, answer, after); }
    case Release(p, after) =>
      if Class(w.live[p]) < SLABS { SlabReleaseKeeps(w, p); } else { HeapReleaseKeeps(w, p, after); }
    case Write(a, value) => WriteKeeps(w, a, value);
  }

  // ---- Runs -----------------------------------------------------------------------------------

  function Run(w: World, es: seq<Event>): (w': World)
    requires |w.slabs| == SLABS
    ensures |w'.slabs| == SLABS
  {
    if es == [] then w else Step(Run(w, es[..|es| - 1]), es[|es| - 1])
  }

  /** No client has written into the fallback heap's free list. */
  ghost predicate Clean(w: World, es: seq<Event>)
    requires |w.slabs| == SLABS
  {
    es == [] || (Clean(w, es[..|es| - 1]) && !Trespass(Run(w, es[..|es| - 1]), es[|es| - 1]))
  }

  /** Clients keep to their side throughout, and the fallback heap to its contract as long as its free list is its own;
      after that it may answer and write anything. */
  ghost predicate Legal(w: World, es: seq<Event>)
    requires |w.slabs| == SLABS
  {
    es == [] || (var v := Run(w, es[..|es| - 1]);
                 && Legal(w, es[..|es| - 1]) && Polite(v, es[|es| - 1])
                 && (Clean(w, es[..|es| - 1]) ==> HeapKeeps(v, es[|es| - 1])))
  }

  /** Right after `init`: nothing is held and the slab regions read as zero. */
  ghost predicate Fresh(w: World) {
    && Good(w) && w.live == map[]
    && (forall i :: 0 <= i < SLABS ==> w.slabs[i].next == w.slabs[i].start && w.slabs[i].used == 0)
    && (forall i, a :: 0 <= i < SLABS && w.slabs[i].start <= a < w.slabs[i].end ==> w.mem[a] == 0)
  }

  lemma FreshInv(w: World)
    requires Fresh(w)
    ensures Inv(w)
  {
    forall i | 0 <= i < SLABS ensures Slab.Inv(w.slabs[i], w.mem, LiveOf(w.live, i)) {
      assert Cut(w.slabs[i], i);
      if i < LAST { FittingLimit(w.slabs[i], i); }
      assert LiveOf(w.live, i) == map[];
      assert Slab.Shape(w.slabs[i], w.mem, map[], [], 0);
    }
  }

  lemma {:induction false} RunKeeps(w: World, es: seq<Event>)
    requires Fresh(w) && Legal(w, es) && Clean(w, es)
    ensures Inv(Run(w, es))
  {
    if es == [] {
      FreshInv(w);
    } else {
      RunKeeps(w, es[..|es| - 1]);
      StepKeeps(Run(w, es[..|es| - 1]), es[|es| - 1]);
    }
  }

  // ---- What the invariant means for clients ---------------------------------------------------

  lemma {:induction false} PowersDivide(a: nat, b: nat)
    requires a <= b
    ensures Pow2(b) % Pow2(a) == 0
    decreases b - a
  {
    if a < b {
      PowersDivide(a, b - 1);
      MultipleDouble(Pow2(b - 1), Pow2(a));
    } else {
      ModStep(0, Pow2(a));
    }
  }

  lemma MultipleDouble(x: nat, d: nat)
    requires d > 0 && x % d == 0
    ensures (2 * x) % d == 0
  {
    assert 2 * x == (2 * (x / d)) * d + 0;
    DivModUnique(2 * x, d, 2 * (x / d), 0);
  }

  lemma MultipleOfMultiple(x: nat, s: nat, d: nat)
    requires s > 0 && d > 0 && x % s == 0 && s % d == 0
    ensures x % d == 0
  {
    assert x == (x / s) * s && s == (s / d) * d;
    assert x == ((x / s) * (s / d)) * d + 0 by {
      MulAssoc(x / s, s / d, d);
    }
    DivModUnique(x, d, (x / s) * (s / d), 0);
  }

  lemma MulAssoc(a: nat, b: nat, c: nat)
    ensures a * (b * c) == (a * b) * c
  {
  }

  lemma {:induction false} Pow2Strict(a: nat, b: nat)
    requires Pow2(a) <= Pow2(b)
    ensures a <= b
    decreases a
  {
    if a > 0 && b > 0 { Pow2Strict(a - 1, b - 1); }
  }

  /** Cell sizes are powers of two, so a cell aligned to its size is aligned to any layout it can serve. */
  lemma SizeDivides(i: nat, align: nat)
    requires i < SLABS && align <= SIZES[i] && exists k: nat :: align == Pow2(k)
    ensures align > 0 && SIZES[i] % align == 0
  {
    var k: nat :| align == Pow2(k);
    var b := [4, 5, 6, 7, 8, 9, 11][i];
    assert Pow2(3) == 8 && Pow2(7) == 128 && Pow2(11) == 2048;
    assert SIZES[i] == Pow2(b);
    Pow2Strict(k, b);
    PowersDivide(k, b);
  }

  /** A block is as aligned as the start of its slab. */
  lemma BlockAligned(w: World, p: nat)
    requires Inv(w) && p in w.live
    ensures var (l, i) := (w.live[p], Class(w.live[p]));
            l.align > 0 && (i == SLABS || w.slabs[i].start % l.align == 0 ==> p % l.align == 0)
  {
    var l := w.live[p];
    var i := Class(l);
    if i < SLABS {
      var s := w.slabs[i];
      SlabBlock(w, i, p);
      ClassFits(l, 0);
      var c: nat :| c < Slab.CellCount(s.start, s.end, s.size) && Slab.Cell(s.start, s.size, c) == p;
      SizeDivides(i, l.align);
      Slab.CellKeepsMod(s.start, s.size, c, l.align);
    } else {
      assert HeapBlock(w, p);
    }
  }

  lemma StartAligned(w: World, l: Layout)
    requires |w.slabs| == SLABS && StartsAligned(w) && ValidLayout(l) && Class(l) < SLABS
    ensures l.align > 0 && w.slabs[Class(l)].start % l.align == 0
  {
    ClassFits(l, 0);
    SizeDivides(Class(l), l.align);
    MultipleOfMultiple(w.slabs[Class(l)].start, SIZES[Class(l)], l.align);
  }

  /** The last cell of the last slab is out, and heap block `q` begins inside it. */
  ghost predicate Overrun(w: World, p: nat, q: nat)
    requires |w.slabs| == SLABS
  {
    && p in w.live && Class(w.live[p]) == LAST && w.slabs[LAST].size > 0 && p == LastCell(w.slabs[LAST])
    && HeapBlock(w, q) && q < p + w.live[p].size
  }

  /** Blocks are apart, unless one is that cell and the other that block. */
  lemma BlocksApart(w: World, p: nat, q: nat)
    requires Inv(w) && p in w.live && q in w.live && p != q
    ensures Apart(p, w.live[p].size, q, w.live[q].size) || Overrun(w, p, q) || Overrun(w, q, p)
    ensures Fitting(w.slabs[LAST], LAST) ==> Apart(p, w.live[p].size, q, w.live[q].size)
  {
    var i, j := Class(w.live[p]), Class(w.live[q]);
    if i == SLABS == j {
      assert HeapBlock(w, p) && HeapBlock(w, q);
    } else if i < SLABS && j < SLABS {
      CellsApart(w, p, q);
    } else if i < SLABS {
      CellAndBlockApart(w, p, q);
    } else {
      CellAndBlockApart(w, q, p);
    }
  }

  lemma CellsApart(w: World, p: nat, q: nat)
    requires Inv(w) && p in w.live && q in w.live && p != q && Class(w.live[p]) < SLABS && Class(w.live[q]) < SLABS
    ensures Apart(p, w.live[p].size, q, w.live[q].size)
  {
    var i, j := Class(w.live[p]), Class(w.live[q]);
    SlabBlock(w, i, p);
    ClassFits(w.live[p], 0);
    SlabBlock(w, j, q);
    ClassFits(w.live[q], 0);
    if i == j {
      Slab.CellsApart(w.slabs[i], Slab.CellCount(w.slabs[i].start, w.slabs[i].end, w.slabs[i].size), p, q);
    } else {
      SlabsApart(w, i, j);
    }
  }

  lemma CellAndBlockApart(w: World, p: nat, q: nat)
    requires Inv(w) && p in w.live && Class(w.live[p]) < SLABS && HeapBlock(w, q)
    ensures Apart(p, w.live[p].size, q, w.live[q].size) || Overrun(w, p, q)
    ensures Fitting(w.slabs[LAST], LAST) ==> Apart(p, w.live[p].size, q, w.live[q].size)
  {
    SlabBlock(w, Class(w.live[p]), p);
    ClassFits(w.live[p], 0);
  }

  ghost predicate Disjoint(live: map<nat, Layout>) {
    forall p, q :: p in live && q in live && p != q ==> Apart(p, live[p].size, q, live[q].size)
  }

  ghost predicate Aligned(live: map<nat, Layout>) {
    forall p :: p in live ==> live[p].align > 0 && p % live[p].align == 0
  }

  /** Each pointer served by a slab is a cell of the slab its layout leads back to, large enough for it. */
  ghost predicate Returnable(w: World)
    requires |w.slabs| == SLABS
  {
    forall p :: p in w.live && Class(w.live[p]) < SLABS ==> CellOf(w.slabs[Class(w.live[p])], p, w.live[p].size)
  }

  ghost predicate CellOf(s: Slab.Slab, p: nat, size: nat) {
    && s.size > 0 && Slab.IsCell(s, Slab.CellCount(s.start, s.end, s.size), p)
    && size <= s.size && p + s.size <= Slab.Limit(s)
  }

  /** Whatever is asked for next, the answer is null or a pointer nobody holds. */
  ghost predicate NextIsNew(w: World)
    requires |w.slabs| == SLABS
  {
    forall e: Event :: Allowed(w, e) && e.Request? ==> Answer(w, e) == 0 || Answer(w, e) !in w.live
  }

  /** What the client of a request gets. */
  function Answer(w: World, e: Event): (p: nat)
    requires |w.slabs| == SLABS && e.Request?
  {
    if Class(e.layout) < SLABS then Slab.Alloc(w.slabs[Class(e.layout)], w.mem, e.layout.size).0 else e.answer
  }

  lemma InvNextIsNew(w: World)
    requires Inv(w)
    ensures NextIsNew(w)
  {
    forall e: Event | Allowed(w, e) && e.Request? ensures Answer(w, e) == 0 || Answer(w, e) !in w.live {
      if Class(e.layout) < SLABS {
        ClassFits(e.layout, 0);
        NextCell(w, Class(e.layout), e.layout.size);
      } else if e.answer != 0 {
        HeapAnswerNew(w, e.layout, e.answer);
      }
    }
  }

  lemma HeapAnswerNew(w: World, l: Layout, p: nat)
    requires Inv(w) && ValidLayout(l) && HeapAnswer(w, l, p) && p != 0
    ensures p !in w.live
  {
    if p in w.live { BlockPlace(w, p); }
  }

  /** A request that a slab serves is refused, with nothing changed, exactly if all its cells are out; otherwise the
      client gets one that was not. */
  lemma RequestServed(w: World, es: seq<Event>, l: Layout)
    requires Fresh(w) && Legal(w, es) && Clean(w, es) && ValidLayout(l) && l.size <= 2048 && l.align <= 2048
    ensures Class(l) < SLABS && Served(Run(w, es), l)
  {
    RunKeeps(w, es);
    FirstFit(l);
    InvServed(Run(w, es), l);
  }

  ghost predicate Served(w: World, l: Layout)
    requires |w.slabs| == SLABS && Class(l) < SLABS
  {
    var s, e := w.slabs[Class(l)], Request(l, 0, []);
    && s.size > 0
    && if Slab.AllOut(s, LiveOf(w.live, Class(l))) then Step(w, e) == w && Answer(w, e) == 0
       else && Answer(w, e) !in w.live && Step(w, e).live == w.live[Answer(w, e) := l]
            && Slab.IsCell(s, Slab.CellCount(s.start, s.end, s.size), Answer(w, e))
  }

  lemma InvServed(w: World, l: Layout)
    requires Inv(w) && Class(l) < SLABS
    ensures Served(w, l)
  {
    var i := Class(l);
    ClassFits(l, 0);
    assert SlabOk(w, i);
    NextCell(w, i, l.size);
    Slab.AllocKeepsInv(w.slabs[i], w.mem, LiveOf(w.live, i), l.size);
    Slab.AllocNullIff(w.slabs[i], w.mem, LiveOf(w.live, i), l.size);
    if Answer(w, Request(l, 0, [])) == 0 { assert w.slabs[i := w.slabs[i]] == w.slabs; }
  }

  // ---- What clients store stays ---------------------------------------------------------------

  /** Byte `a` of the block at `p`: not one that sticks out of the last slab into the fallback heap. */
  ghost predicate Holds(w: World, p: nat, a: nat) {
    && p in w.live && p <= a < p + w.live[p].size && a < |w.mem|
    && (Class(w.live[p]) == SLABS || a < w.heapLo)
  }

  /** The link word of a cell that is not `p`'s lies outside `p`'s block. */
  lemma LinkElsewhere(w: World, p: nat, a: nat, j: nat, c: nat)
    requires Inv(w) && Holds(w, p, a) && j < SLABS && c != p
    requires var s := w.slabs[j]; s.size > 0 && Slab.IsCell(s, Slab.CellCount(s.start, s.end, s.size), c)
    ensures !(c <= a < c + WORD)
  {
    var i, s := Class(w.live[p]), w.slabs[j];
    assert Cut(s, j);
    CellPlace(s, j, c);
    OwnedPlace(w, p, a);
    if i == j {
      assert SlabOk(w, i);
      SlabBlock(w, i, p);
      ClassFits(w.live[p], 0);
      Slab.CellsApart(s, Slab.CellCount(s.start, s.end, s.size), p, c);
    } else if i < SLABS {
      SlabsApart(w, i, j);
      if i == LAST { assert w.slabs[j].end <= w.slabs[i].start; }
    }
  }

  /** No step changes a byte that somebody holds before and after it, except a write to that byte. */
  lemma StepKeepsBytes(w: World, e: Event, p: nat, a: nat)
    requires Inv(w) && Allowed(w, e) && Holds(w, p, a) && p in Step(w, e).live
    requires !(e.Write? && e.addr == a)
    ensures a < |Step(w, e).mem| && Step(w, e).mem[a] == w.mem[a]
  {
    match e
    case Request(l, answer, after) =>
      var i := Class(l);
      if i < SLABS {
        ClassFits(l, 0);
        assert SlabOk(w, i);
        NextCell(w, i, l.size);
        Slab.AllocKeepsInv(w.slabs[i], w.mem, LiveOf(w.live, i), l.size);
        var c := Slab.Alloc(w.slabs[i], w.mem, l.size).0;
        if c != 0 { LinkElsewhere(w, p, a, i, c); }
      } else {
        HeldOutsideHeap(w, after, p, a);
      }
    case Release(c, after) =>
      var i := Class(w.live[c]);
      if i < SLABS {
        assert SlabOk(w, i);
        SlabBlock(w, i, c);
        LinkElsewhere(w, p, a, i, c);
      } else {
        HeldOutsideHeap(w, after, p, a);
      }
    case Write(_, _) =>
  }

  lemma HeldOutsideHeap(w: World, m': seq<byte>, p: nat, a: nat)
    requires HeapWrites(w, m') && Holds(w, p, a)
    ensures m'[a] == w.mem[a]
  {
    if Class(w.live[p]) == SLABS { assert HeapBlock(w, p); }
  }

  /** Integrity: a byte of a block that stays held keeps its value until somebody writes to it, whatever else is
      requested, released and written meanwhile. */
  lemma {:induction false} HeldBytesKept(w: World, es: seq<Event>, n: nat, p: nat, a: nat)
    requires Fresh(w) && Legal(w, es) && Clean(w, es) && n <= |es|
    requires forall i :: n <= i <= |es| ==> Holds(Run(w, es[..i]), p, a)
    requires forall i :: n <= i < |es| ==> !(es[i].Write? && es[i].addr == a)
    ensures a < |Run(w, es[..n]).mem| && a < |Run(w, es).mem| && Run(w, es).mem[a] == Run(w, es[..n]).mem[a]
    decreases |es|
  {
    assert es[..|es|] == es;
    if n < |es| {
      var es' := es[..|es| - 1];
      assert forall i :: n <= i <= |es'| ==> es'[..i] == es[..i];
      HeldBytesKept(w, es', n, p, a);
      RunKeeps(w, es');
      StepKeepsBytes(Run(w, es'), es[|es| - 1], p, a);
    }
  }

  /** Two live allocations overlap only if one is the last slab's last cell, sticking out of its region, and the other a
      heap block that begins inside it. */
  ghost predicate OnlyLastOverruns(w: World)
    requires |w.slabs| == SLABS
  {
    forall p, q :: p in w.live && q in w.live && p != q ==>
      Apart(p, w.live[p].size, q, w.live[q].size) || Overrun(w, p, q) || Overrun(w, q, p)
  }

  /** Each slab's `used` is the sum of its live layout sizes. */
  ghost predicate UsedIsSum(w: World)
    requires |w.slabs| == SLABS
  {
    forall i :: 0 <= i < SLABS ==> w.slabs[i].used == Sum(LiveOf(w.live, i))
  }

  /** A pointer is never handed out while it is held, a release reaches the slab that served it, each slab's `used` is
      right, and only the last slab's last cell can overlap another allocation. */
  ghost predicate Safe(w: World)
    requires |w.slabs| == SLABS
  {
    OnlyLastOverruns(w) && Returnable(w) && NextIsNew(w) && UsedIsSum(w)
  }

  lemma InvSafe(w: World)
    requires Inv(w)
    ensures Safe(w)
    ensures Fitting(w.slabs[LAST], LAST) || LastCell(w.slabs[LAST]) !in w.live ==> Disjoint(w.live)
  {
    InvApart(w);
    InvReturnable(w);
    InvNextIsNew(w);
    forall i | 0 <= i < SLABS ensures w.slabs[i].used == Sum(LiveOf(w.live, i)) { assert SlabOk(w, i); }
  }

  lemma InvApart(w: World)
    requires Inv(w)
    ensures OnlyLastOverruns(w)
    ensures Fitting(w.slabs[LAST], LAST) || LastCell(w.slabs[LAST]) !in w.live ==> Disjoint(w.live)
  {
    forall p, q | p in w.live && q in w.live && p != q
      ensures Apart(p, w.live[p].size, q, w.live[q].size) || Overrun(w, p, q) || Overrun(w, q, p)
      ensures Fitting(w.slabs[LAST], LAST) ==> Apart(p, w.live[p].size, q, w.live[q].size)
    {
      BlocksApart(w, p, q);
    }
  }

  /** The last slab's last cell has not been out at any point of the run. */
  ghost predicate Unused(w: World, es: seq<Event>)
    requires |w.slabs| == SLABS && w.slabs[LAST].size > 0
  {
    LastCell(w.slabs[LAST]) !in Run(w, es).live && (es == [] || Unused(w, es[..|es| - 1]))
  }

  /** Only whoever holds the last slab's last cell, where it sticks out, can write into the heap's free list. */
  lemma TrespassIsLast(w: World, e: Event)
    requires Inv(w) && Polite(w, e) && Trespass(w, e)
    ensures !Fitting(w.slabs[LAST], LAST) && LastCell(w.slabs[LAST]) in LiveOf(w.live, LAST)
  {
    var p :| p in w.live && p <= e.addr < p + w.live[p].size;
    var i := Class(w.live[p]);
    assert i < SLABS;
    SlabBlock(w, i, p);
    ClassFits(w.live[p], 0);
  }

  lemma {:induction false} UnusedIsClean(w: World, es: seq<Event>)
    requires Fresh(w) && Legal(w, es)
    requires Cut(w.slabs[LAST], LAST) && (Fitting(w.slabs[LAST], LAST) || Unused(w, es))
    ensures Clean(w, es)
  {
    if es != [] {
      var es' := es[..|es| - 1];
      var v := Run(w, es');
      UnusedIsClean(w, es');
      RunKeeps(w, es');
      RunKeepsRegion(w, es', LAST);
      SameLast(w.slabs[LAST], v.slabs[LAST]);
      if Trespass(v, es[|es| - 1]) { TrespassIsLast(v, es[|es| - 1]); }
    }
  }

  /** Whole-allocator safety. In every run in which no client writes into the fallback heap's free list: a pointer
      is never handed out while it is held, a release reaches the slab that served it, each slab's `used` is the sum
      of its live layout sizes, and any two live allocations are disjoint, if the last slab holds whole cells or its
      last cell is not out; otherwise only that cell and a heap block that begins inside it can overlap. And no
      client does, if the last slab holds whole cells or its last cell has never been out. */
  lemma AllocatorSafe(w: World, es: seq<Event>)
    requires Fresh(w) && Legal(w, es)
    ensures Cut(w.slabs[LAST], LAST)
    ensures Clean(w, es) ==> Safe(Run(w, es))
    ensures Clean(w, es) && (Fitting(w.slabs[LAST], LAST) || LastCell(w.slabs[LAST]) !in Run(w, es).live) ==>
              Disjoint(Run(w, es).live)
    ensures Fitting(w.slabs[LAST], LAST) || Unused(w, es) ==> Clean(w, es)
  {
    var v := Run(w, es);
    assert Cut(w.slabs[LAST], LAST);
    if Fitting(w.slabs[LAST], LAST) || Unused(w, es) { UnusedIsClean(w, es); }
    if Clean(w, es) {
      RunKeeps(w, es);
      RunKeepsRegion(w, es, LAST);
      SameLast(w.slabs[LAST], v.slabs[LAST]);
      InvSafe(v);
    }
  }

  lemma SameLast(s: Slab.Slab, s': Slab.Slab)
    requires s'.start == s.start && s'.end == s.end && s'.size == s.size > 0
    ensures LastCell(s') == LastCell(s) && (Fitting(s', LAST) <==> Fitting(s, LAST))
  {
  }

  lemma {:induction false} RunKeepsRegion(w: World, es: seq<Event>, i: nat)
    requires |w.slabs| == SLABS && i < SLABS
    ensures var s := Run(w, es).slabs[i];
            s.start == w.slabs[i].start && s.end == w.slabs[i].end && s.size == w.slabs[i].size
  {
    if es != [] { RunKeepsRegion(w, es[..|es| - 1], i); }
  }

  lemma {:induction false} ClassOfCell(i: nat, from: nat)
    requires from <= i < SLABS
    ensures Class(Layout(SIZES[i], SIZES[i]), from) == i
    decreases i - from
  {
    if from < i { ClassOfCell(i, from + 1); }
  }

  /** The first cell handed out is the start of the region: if that is misaligned, so is a live allocation. */
  lemma FirstCellMisaligned(w: World, i: nat)
    requires Fresh(w) && i < SLABS && w.slabs[i].start < w.slabs[i].end && w.slabs[i].start % SIZES[i] != 0
    ensures var es := [Request(Layout(SIZES[i], SIZES[i]), 0, [])];
            Legal(w, es) && Clean(w, es) && !Aligned(Run(w, es).live)
  {
    var l := Layout(SIZES[i], SIZES[i]);
    var es := [Request(l, 0, [])];
    ClassOfCell(i, 0);
    assert ValidLayout(l) by {
      assert Pow2(3) == 8 && Pow2(7) == 128 && Pow2(11) == 2048;
      assert l.align == Pow2([4, 5, 6, 7, 8, 9, 11][i]);
    }
    RunOne(w, es[0]);
    assert w.slabs[i].start in Step(w, es[0]).live;
  }

  lemma RunOne(w: World, e: Event)
    requires |w.slabs| == SLABS
    ensures Run(w, [e]) == Step(w, e) && (Legal(w, [e]) <==> Allowed(w, e)) && (Clean(w, [e]) <==> !Trespass(w, e))
  {
    assert [e][..0] == [] && Run(w, []) == w;
  }

  lemma RunAligned(w: World, es: seq<Event>)
    requires Fresh(w) && Legal(w, es) && Clean(w, es) && StartsAligned(w)
    ensures Aligned(Run(w, es).live)
  {
    var v := Run(w, es);
    RunKeeps(w, es);
    forall i | 0 <= i < SLABS ensures v.slabs[i].start % SIZES[i] == 0 { RunKeepsRegion(w, es, i); }
    forall p | p in v.live ensures v.live[p].align > 0 && p % v.live[p].align == 0 {
      if Class(v.live[p]) < SLABS { StartAligned(v, v.live[p]); }
      BlockAligned(v, p);
    }
  }

  /** Every allocation of every clean run is aligned as its layout asks exactly when the slabs start aligned. */
  lemma AllocatorAlignedIff(w: World)
    requires Fresh(w) && forall i :: 0 <= i < SLABS ==> w.slabs[i].start < w.slabs[i].end
    ensures (forall es :: AlignedRun(w, es)) <==> StartsAligned(w)
  {
    if StartsAligned(w) {
      forall es ensures AlignedRun(w, es) {
        if Legal(w, es) && Clean(w, es) { RunAligned(w, es); }
      }
    } else {
      SomeMisaligned(w);
    }
  }

  ghost predicate AlignedRun(w: World, es: seq<Event>)
    requires |w.slabs| == SLABS
  {
    Legal(w, es) && Clean(w, es) ==> Aligned(Run(w, es).live)
  }

  lemma SomeMisaligned(w: World)
    requires Fresh(w) && !StartsAligned(w) && forall i :: 0 <= i < SLABS ==> w.slabs[i].start < w.slabs[i].end
    ensures exists es :: !AlignedRun(w, es)
  {
    var i :| 0 <= i < SLABS && w.slabs[i].start % SIZES[i] != 0;
    FirstCellMisaligned(w, i);
    var es := [Request(Layout(SIZES[i], SIZES[i]), 0, [])];
    assert !AlignedRun(w, es);
  }

  lemma InvReturnable(w: World)
    requires Inv(w)
    ensures Returnable(w)
  {
    forall p | p in w.live && Class(w.live[p]) < SLABS
      ensures CellOf(w.slabs[Class(w.live[p])], p, w.live[p].size)
    {
      SlabBlock(w, Class(w.live[p]), p);
      ClassFits(w.live[p], 0);
    }
  }

  // ---- When the regions `init` cuts out are large enough ----------------------------------------

  const BIG: Layout := Layout(2048, 1)

  /** `j` requests for a whole cell of the last slab. */
  function FillLast(j: nat): (es: seq<Event>)
    ensures |es| == j
  {
    if j == 0 then [] else FillLast(j - 1) + [Request(BIG, 0, [])]
  }

  lemma ClassOfBig()
    ensures Class(BIG) == 6 && Class(Layout(2049, 1)) == SLABS && ValidLayout(BIG) && ValidLayout(Layout(2049, 1))
  {
    assert Class(BIG, 3) == 6 && Class(Layout(2049, 1), 3) == SLABS;
    assert Pow2(0) == 1;
  }

  /** `v` is `w` with the last slab, the memory and the holdings of the one-slab world `u`. */
  ghost predicate Mirrors(w: World, v: World, u: Slab.World)
    requires |w.slabs| == SLABS
  {
    && v == w.(slabs := w.slabs[6 := u.slab], mem := u.mem, live := v.live)
    && v.live.Keys == u.live.Keys
    && (forall p :: p in v.live ==> v.live[p] == BIG)
  }

  lemma MirrorStep(w: World, v: World, u: Slab.World)
    requires |w.slabs| == SLABS && Mirrors(w, v, u)
    ensures Mirrors(w, Step(v, Request(BIG, 0, [])), Slab.Step(u, Slab.Request(2048)))
  {
    ClassOfBig();
  }

  /** Seen by the last slab alone, those requests are an ordinary run of one slab. */
  lemma {:induction false} FillLastRun(w: World, j: nat)
    requires |w.slabs| == SLABS && w.live == map[]
    ensures Legal(w, FillLast(j)) && Clean(w, FillLast(j))
    ensures Mirrors(w, Run(w, FillLast(j)), Slab.Run(Slab.World(w.slabs[6], w.mem, map[]), Slab.Fill(2048, j)))
  {
    if j > 0 {
      var alone := Slab.World(w.slabs[6], w.mem, map[]);
      FillLastRun(w, j - 1);
      BigAllowed(Run(w, FillLast(j - 1)));
      RunOneMore(w, FillLast(j - 1), Request(BIG, 0, []));
      Slab.RunOneMore(alone, Slab.Fill(2048, j - 1), Slab.Request(2048));
      MirrorStep(w, Run(w, FillLast(j - 1)), Slab.Run(alone, Slab.Fill(2048, j - 1)));
    }
  }

  lemma BigAllowed(w: World)
    ensures Allowed(w, Request(BIG, 0, []))
  {
    ClassOfBig();
  }

  /** While the heap has nothing out it may answer its first byte; a cell reaching past it then overlaps. */
  lemma HeapStartCollides(v: World, p: nat)
    requires |v.slabs| == SLABS && p in v.live && (forall q :: q in v.live ==> v.live[q] == BIG)
    requires 0 < p < v.heapLo < p + 2048 && v.heapLo + 2049 <= v.heapHi
    ensures var e := Request(Layout(2049, 1), v.heapLo, v.mem);
            Allowed(v, e) && !Disjoint(Step(v, e).live)
  {
    ClassOfBig();
    var v' := Step(v, Request(Layout(2049, 1), v.heapLo, v.mem));
    assert p in v'.live && v.heapLo in v'.live && !Apart(p, 2048, v.heapLo, 2049);
  }

  /** What `init` leaves of the last slab: nothing out, and its region zero up to where the heap begins. */
  ghost predicate LastFresh(w: World) {
    && |w.slabs| == SLABS && w.live == map[] && w.slabs[6].size == 2048
    && w.slabs[6].next == w.slabs[6].start && w.slabs[6].used == 0
    && 0 < w.slabs[6].start < w.slabs[6].end == w.heapLo && w.heapLo + 2048 <= w.heapHi <= |w.mem| < Pow256(WORD)
    && (forall a :: w.slabs[6].start <= a < w.heapLo ==> w.mem[a] == 0)
  }

  /** All cells of the last slab can be out at once, even if the heap's free list lies over the last one's link. */
  lemma LastCellOut(w: World, n: nat)
    requires LastFresh(w) && n == Slab.CellCount(w.slabs[6].start, w.slabs[6].end, 2048)
    ensures n > 0 && Slab.Cell(w.slabs[6].start, 2048, n - 1) in Run(w, FillLast(n)).live
    ensures Mirrors(w, Run(w, FillLast(n)), Slab.Run(Slab.World(w.slabs[6], w.mem, map[]), Slab.Fill(2048, n)))
  {
    var alone := Slab.World(w.slabs[6], w.mem, map[]);
    FillLastRun(w, n);
    Slab.FillAlmost(alone, n - 1);
    assert Slab.Fill(2048, n)[..n - 1] == Slab.Fill(2048, n - 1);
  }

  /** If the last slab's cells run past the start of the heap, some legal run makes two live allocations overlap,
      and some legal run writes into the heap's free list. */
  lemma LastSlabCollides(w: World)
    requires LastFresh(w) && w.heapLo < Slab.Limit(w.slabs[6]) && w.heapLo + 2049 <= w.heapHi
    ensures exists es :: Legal(w, es) && !Disjoint(Run(w, es).live)
    ensures exists es :: Legal(w, es) && !Clean(w, es)
  {
    var n := Slab.CellCount(w.slabs[6].start, w.slabs[6].end, 2048);
    LastCellOut(w, n);
    FillLastRun(w, n);
    Slab.CellCountExact(w.slabs[6].start, w.slabs[6].end, 2048, n - 1);
    TwoWaysOn(w, FillLast(n), Slab.Cell(w.slabs[6].start, 2048, n - 1));
  }

  lemma TwoWaysOn(w: World, es: seq<Event>, p: nat)
    requires |w.slabs| == SLABS && Legal(w, es) && p in Run(w, es).live
    requires var v := Run(w, es);
             && (forall q :: q in v.live ==> v.live[q] == BIG)
             && 0 < p < v.heapLo < p + 2048 && v.heapLo + 2049 <= v.heapHi
    ensures exists es :: Legal(w, es) && !Disjoint(Run(w, es).live)
    ensures exists es :: Legal(w, es) && !Clean(w, es)
  {
    var v := Run(w, es);
    HeapStartCollides(v, p);
    RunOneMore(w, es, Request(Layout(2049, 1), v.heapLo, v.mem));
    HeapStartOwned(v, p);
    RunOneMore(w, es, Write(v.heapLo, 0));
  }

  lemma HeapStartOwned(v: World, p: nat)
    requires p in v.live && (forall q :: q in v.live ==> v.live[q] == BIG)
    requires p <= v.heapLo < p + 2048 && v.heapLo < v.heapHi
    ensures Allowed(v, Write(v.heapLo, 0)) && Trespass(v, Write(v.heapLo, 0))
  {
    ClassOfBig();
    assert Owned(v.live, v.heapLo);
  }

  lemma RunOneMore(w: World, es: seq<Event>, e: Event)
    requires |w.slabs| == SLABS && Legal(w, es) && Allowed(Run(w, es), e)
    ensures Legal(w, es + [e]) && Run(w, es + [e]) == Step(Run(w, es), e)
    ensures Clean(w, es + [e]) <==> Clean(w, es) && !Trespass(Run(w, es), e)
  {
    assert (es + [e])[..|es + [e]| - 1] == es;
  }

  /** `init` was given memory that reads as zero up to the fallback heap and can be addressed, and a region has room for
      one of the largest cells. */
  ghost predicate Sound(start: nat, size: nat, mem: seq<byte>) {
    && 0 < start && 2048 <= size / 8 && start + size <= |mem| && |mem| + 2048 < Pow256(WORD)
    && (forall a :: start <= a < start + size / 8 * SLABS ==> mem[a] == 0)
  }

  lemma RegionInOrder(region: nat, i: nat, j: nat)
    requires i < j
    ensures region * i + region <= region * j
  {
    var d := j - i;
    assert region * (i + d) == region * i + region * d;
    assert region * d == region * (d - 1) + region;
    MulNonNegative(region, d - 1);
  }

  lemma MulNonNegative(a: nat, b: nat)
    ensures a * b >= 0
  {
  }

  /** A region that is a multiple of 512 holds whole cells of the first six slabs, and the link words of the last. */
  lemma RegionCut(s: Slab.Slab, i: nat)
    requires i < SLABS && s.size == SIZES[i] && 0 < s.start <= s.end && (s.end - s.start) % 512 == 0
    ensures Cut(s, i) && Slab.Limit(s) < s.end + s.size
  {
    var region := s.end - s.start;
    if i < LAST { MultipleOfMultiple(region, 512, SIZES[i]); }
    if region % s.size == 0 {
      FittingLimit(s, i);
    } else {
      RaggedCut(s);
    }
  }

  lemma RaggedCut(s: Slab.Slab)
    requires s.size == 2048 && 0 < s.start < s.end && (s.end - s.start) % 512 == 0 && (s.end - s.start) % 2048 != 0
    ensures Slab.Reach(s) == s.end && Slab.Limit(s) < s.end + s.size
  {
    RaggedLimit(s);
    Quarters(s.end - s.start);
  }

  lemma Quarters(region: nat)
    requires region % 512 == 0 && region % 2048 != 0
    ensures region % 2048 >= 512
  {
    assert region % 2048 == region - 2048 * (region / 2048) && region == 512 * (region / 512);
  }

  lemma InitGood(start: nat, size: nat, mem: seq<byte>)
    requires Sound(start, size, mem) && (size / 8) % 512 == 0
    ensures Fresh(Init(start, size, mem))
  {
    var w := Init(start, size, mem);
    var region := size / 8;
    assert w.heapLo == start + region * 7 && w.heapHi == w.heapLo + region <= start + size;
    forall i | 0 <= i < SLABS
      ensures w.slabs[i] == InitSlab(start + region * i, region, i)
      ensures start <= w.slabs[i].start && Cut(w.slabs[i], i) && w.slabs[i].end <= w.heapLo
    {
      MulNonNegative(region, i);
      RegionCut(w.slabs[i], i);
      RegionInOrder(region, i, 7);
    }
    forall i, j | 0 <= i < j < SLABS ensures w.slabs[i].end <= w.slabs[j].start {
      RegionInOrder(region, i, j);
    }
    RegionCut(w.slabs[LAST], LAST);
  }

  /** A region that does not hold whole cells ends inside its last cell. */
  lemma RaggedLimit(s: Slab.Slab)
    requires s.size > 0 && s.start < s.end && (s.end - s.start) % s.size != 0
    ensures s.end < Slab.Limit(s) < s.end + s.size
    ensures LastCell(s) == s.end - (s.end - s.start) % s.size
  {
    var n := Slab.CellCount(s.start, s.end, s.size);
    Slab.FitsIff(s.start, s.end, s.size);
    Slab.CellCountExact(s.start, s.end, s.size, n);
    Slab.CellCountExact(s.start, s.end, s.size, n - 1);
    RaggedLast(s.start, s.end, s.size);
  }

  lemma {:induction false} RaggedLast(start: nat, end: nat, size: nat)
    requires size > 0 && start < end && (end - start) % size != 0
    ensures var n := Slab.CellCount(start, end, size);
            n > 0 && Slab.Cell(start, size, n - 1) == end - (end - start) % size
    decreases end - start
  {
    if start + size < end {
      ModStep(end - start - size, size);
      RaggedLast(start + size, end, size);
      Slab.CellShift(start, size, Slab.CellCount(start + size, end, size) - 1);
    } else if start + size == end {
      ModStep(0, size);
      assert false;
    } else {
      Small(end - start, size);
    }
  }

  /** Live allocations are disjoint in every run, and the fallback heap's free list is its own in every run, exactly
      when the size of a region, an eighth of the heap, is a multiple of the largest cell. */
  lemma InitDisjointIff(start: nat, size: nat, mem: seq<byte>)
    requires Sound(start, size, mem)
    ensures var w := Init(start, size, mem);
            && ((forall es :: Legal(w, es) ==> Disjoint(Run(w, es).live)) <==> (size / 8) % 2048 == 0)
            && ((forall es :: Legal(w, es) ==> Clean(w, es)) <==> (size / 8) % 2048 == 0)
  {
    var w := Init(start, size, mem);
    if (size / 8) % 2048 == 0 {
      MultipleOfMultiple(size / 8, 2048, 512);
      InitGood(start, size, mem);
      assert Fitting(w.slabs[LAST], LAST);
      forall es | Legal(w, es) ensures Clean(w, es) && Disjoint(Run(w, es).live) { AllocatorSafe(w, es); }
    } else {
      assert size / 8 >= 2049;
      InitLast(start, size, mem);
      RaggedLimit(w.slabs[6]);
      LastSlabCollides(w);
    }
  }

  lemma InitLast(start: nat, size: nat, mem: seq<byte>)
    requires Sound(start, size, mem)
    ensures LastFresh(Init(start, size, mem))
  {
    var region := size / 8;
    assert start + region * 6 + region == start + region * 7;
  }

  // ---- The kernel's own constants -------------------------------------------------------------

  const KERNEL_REGION: nat := (Paging.MANAGED_END - Paging.MANAGED_START) / 8

  /** With the kernel's heap bounds every slab but the last is aligned and holds whole cells; the 2048-byte slab
      does neither, and its last cell runs 512 bytes into the fallback heap. */
  lemma KernelSlabs(mem: seq<byte>)
    ensures var w := Init(Paging.MANAGED_START, Paging.MANAGED_END - Paging.MANAGED_START, mem);
            && (forall i :: 0 <= i < SLABS ==> (Fitting(w.slabs[i], i) <==> i < 6))
            && (forall i :: 0 <= i < SLABS ==> (w.slabs[i].start % SIZES[i] == 0 <==> i < 6))
            && Slab.Limit(w.slabs[6]) == w.heapLo + 512
            && w.heapHi == Paging.MANAGED_END
  {
    var w := Init(Paging.MANAGED_START, Paging.MANAGED_END - Paging.MANAGED_START, mem);
    assert KERNEL_REGION == 0xDFF_FFFF_FE00;
    forall i | 0 <= i < SLABS
      ensures Fitting(w.slabs[i], i) <==> i < 6
      ensures w.slabs[i].start % SIZES[i] == 0 <==> i < 6
    {
      assert w.slabs[i].start == Paging.MANAGED_START + KERNEL_REGION * i;
    }
    LastKernelSlab(w.slabs[6]);
  }

  lemma LastKernelSlab(s: Slab.Slab)
    requires s.start == Paging.MANAGED_START + KERNEL_REGION * 6 && s.end == s.start + KERNEL_REGION && s.size == 2048
    ensures Slab.Limit(s) == s.end + 512
  {
    assert (s.end + 512 - s.start) % 2048 == 0;
    Slab.FitsIff(s.start, s.end + 512, 2048);
    RoundUpCount(s.start, s.end, 512, 2048);
  }

  /** The heap as the kernel sets it up over memory that reads as zero, but for what the fallback heap's `init`
      stored. */
  function KernelHeap(mem: seq<byte>): (w: World)
  {
    Init(Paging.MANAGED_START, Paging.MANAGED_END - Paging.MANAGED_START, mem)
  }

  ghost predicate KernelMemory(mem: seq<byte>) {
    && |mem| == Paging.MANAGED_END
    && (forall a :: Paging.MANAGED_START <= a < Paging.MANAGED_START + KERNEL_REGION * SLABS ==> mem[a] == 0)
  }

  lemma KernelSound(mem: seq<byte>)
    requires KernelMemory(mem)
    ensures Sound(Paging.MANAGED_START, Paging.MANAGED_END - Paging.MANAGED_START, mem)
    ensures Fresh(KernelHeap(mem))
  {
    assert KERNEL_REGION == 0xDFF_FFFF_FE00;
    assert Pow256(8) == 0x1_0000_0000_0000_0000 by { assert Pow256(4) == 0x1_0000_0000; }
    InitGood(Paging.MANAGED_START, Paging.MANAGED_END - Paging.MANAGED_START, mem);
  }

  /** Every allocation is aligned as it was asked for, unless that was 2048. */
  ghost predicate NearlyAligned(live: map<nat, Layout>) {
    forall p :: p in live ==> live[p].align > 0 && (p % live[p].align == 0 || live[p].align == 2048)
  }

  /** What the kernel's heap does promise, over every run: all that `AllocatorSafe` says, and that every allocation is
      aligned as asked unless 2048 was asked for. */
  lemma KernelSafe(mem: seq<byte>, es: seq<Event>)
    requires KernelMemory(mem) && Legal(KernelHeap(mem), es)
    ensures var (w, v) := (KernelHeap(mem), Run(KernelHeap(mem), es));
            && (Clean(w, es) ==> Safe(v) && NearlyAligned(v.live))
            && (Clean(w, es) && LastCell(w.slabs[LAST]) !in v.live ==> Disjoint(v.live))
            && (Unused(w, es) ==> Clean(w, es))
  {
    KernelSound(mem);
    AllocatorSafe(KernelHeap(mem), es);
    if Clean(KernelHeap(mem), es) { KernelNearlyAligned(mem, es); }
  }

  lemma KernelNearlyAligned(mem: seq<byte>, es: seq<Event>)
    requires KernelMemory(mem) && Legal(KernelHeap(mem), es) && Clean(KernelHeap(mem), es)
    ensures NearlyAligned(Run(KernelHeap(mem), es).live)
  {
    var v := Run(KernelHeap(mem), es);
    KernelSound(mem);
    RunKeeps(KernelHeap(mem), es);
    forall p | p in v.live ensures v.live[p].align > 0 && (p % v.live[p].align == 0 || v.live[p].align == 2048) {
      BlockAligned(v, p);
      if Class(v.live[p]) < SLABS && v.live[p].align != 2048 {
        RunKeepsRegion(KernelHeap(mem), es, Class(v.live[p]));
        KernelStart(mem, v.live[p]);
      }
    }
  }

  /** The kernel's slabs start aligned to every alignment but 2048 that they serve. */
  lemma KernelStart(mem: seq<byte>, l: Layout)
    requires ValidLayout(l) && Class(l) < SLABS && l.align != 2048
    ensures l.align > 0 && KernelHeap(mem).slabs[Class(l)].start % l.align == 0
  {
    var s := KernelHeap(mem).slabs[Class(l)];
    ClassFits(l, 0);
    if Class(l) < LAST {
      KernelSlabs(mem);
      SizeDivides(Class(l), l.align);
      MultipleOfMultiple(s.start, SIZES[Class(l)], l.align);
    } else {
      LastKernelStart(mem);
      SmallPower(l.align);
      MultipleOfMultiple(s.start, 1024, l.align);
    }
  }

  lemma LastKernelStart(mem: seq<byte>)
    ensures KernelHeap(mem).slabs[LAST].start == 0x63FF_FFFF_F400 && 0x63FF_FFFF_F400 % 1024 == 0
  {
    assert KERNEL_REGION == 0xDFF_FFFF_FE00;
  }

  lemma SmallPower(align: nat)
    requires (exists k: nat :: align == Pow2(k)) && align <= 2048 && align != 2048
    ensures align > 0 && 1024 % align == 0
  {
    var k: nat :| align == Pow2(k);
    assert Pow2(3) == 8 && Pow2(7) == 128 && Pow2(10) == 1024 && Pow2(11) == 2048;
    Pow2Strict(k, 11);
    PowersDivide(k, 10);
  }

  /** The first allocation that does ask for it is already misaligned. */
  lemma KernelMisaligned(mem: seq<byte>)
    requires KernelMemory(mem)
    ensures var es := [Request(Layout(2048, 2048), 0, [])];
            Legal(KernelHeap(mem), es) && Clean(KernelHeap(mem), es) && !Aligned(Run(KernelHeap(mem), es).live)
  {
    KernelSound(mem);
    KernelSlabs(mem);
    FirstCellMisaligned(KernelHeap(mem), LAST);
  }

  /** With the kernel's own bounds, on flat memory, two live allocations can overlap, and the free list of the fallback
      heap can be written to. */
  lemma KernelCollides(mem: seq<byte>)
    requires KernelMemory(mem)
    ensures exists es :: Legal(KernelHeap(mem), es) && !Disjoint(Run(KernelHeap(mem), es).live)
    ensures exists es :: Legal(KernelHeap(mem), es) && !Clean(KernelHeap(mem), es)
  {
    assert KERNEL_REGION == 0xDFF_FFFF_FE00;
    KernelSound(mem);
    InitDisjointIff(Paging.MANAGED_START, Paging.MANAGED_END - Paging.MANAGED_START, mem);
  }

  /** Moving the end within the last cell does not change how many cells there are. */
  lemma {:induction false} RoundUpCount(start: nat, end: nat, extra: nat, size: nat)
    requires size > 0 && start <= end && extra < size && (end + extra - start) % size == 0
    ensures Slab.CellCount(start, end, size) == Slab.CellCount(start, end + extra, size)
    decreases end - start
  {
    if start + size <= end {
      ModStep(end + extra - start - size, size);
      RoundUpCount(start + size, end, extra, size);
    } else if start < end {
      if end + extra - start < size { assert false; }
      if end + extra - start > size {
        DivModUnique(end + extra - start, size, 1, end + extra - start - size);
        assert false;
      }
    } else if extra > 0 {
      assert false;
    }
  }
}
