/** One slab of fixed-size cells with its free list threaded through the freed cells
    (`SlabAllocator`). A link of 0 means "never used: the next free cell is the one after me". */
module Slab {
  import opened Bytes
  import opened Sums
  import opened Arith

  datatype Slab = Slab(start: nat, end: nat, next: nat, size: nat, used: int)

  /** `SlabAllocator::alloc`: the cell handed out (0 is null), the slab and the memory after it. */
  function Alloc(s: Slab, m: seq<byte>, request: nat): (r: (nat, Slab, seq<byte>))
  {
    if s.next >= s.end then (0, s, m)
    else
      var link := Load(m, s.next);
      (s.next,
       s.(next := if link == 0 then s.next + s.size else link, used := s.used + request),
       Store(m, s.next, 0))
  }

  /** `SlabAllocator::dealloc`. */
  function Dealloc(s: Slab, m: seq<byte>, ptr: nat, request: nat): (r: (Slab, seq<byte>))
  {
    (s.(next := ptr, used := s.used - request), Store(m, ptr, s.next))
  }

  // ---- Geometry -----------------------------------------------------------------------------

  /** Address of the `i`-th cell. */
  function Cell(start: nat, size: nat, i: nat): (a: nat)
    ensures a >= start
  {
    if i == 0 then start else Cell(start, size, i - 1) + size
  }

  /** How many cells `alloc` can carve out of `[start, end)`; the last one may stick out. */
  function CellCount(start: nat, end: nat, size: nat): (n: nat)
    requires size > 0
    decreases if start < end then end - start else 0
  {
    if start >= end then 0 else 1 + CellCount(start + size, end, size)
  }

  lemma {:induction false} CellShift(start: nat, size: nat, i: nat)
    ensures Cell(start + size, size, i) == Cell(start, size, i + 1)
  {
    if i > 0 { CellShift(start, size, i - 1); }
  }

  lemma {:induction false} CellOrder(start: nat, size: nat, i: nat, j: nat)
    requires i < j
    ensures Cell(start, size, i) + size <= Cell(start, size, j)
  {
    if i + 1 < j { CellOrder(start, size, i, j - 1); }
  }

  lemma {:induction false} CellCountExact(start: nat, end: nat, size: nat, i: nat)
    requires size > 0
    ensures Cell(start, size, i) < end <==> i < CellCount(start, end, size)
    decreases i
  {
    if i == 0 {
    } else if start >= end {
      CellOrder(start, size, 0, i);
    } else {
      CellCountExact(start + size, end, size, i - 1);
      CellShift(start, size, i - 1);
    }
  }

  /** One past the last byte of the last cell. */
  function Limit(s: Slab): (a: nat)
    requires s.size > 0
  {
    Cell(s.start, s.size, CellCount(s.start, s.end, s.size))
  }

  /** One past the last byte the slab itself relies on: the end of its region, or of the last link word if that sticks
      out further. What else sticks out of the region belongs to the cell's client alone. */
  function Reach(s: Slab): (a: nat)
    requires s.size > 0
  {
    var n := CellCount(s.start, s.end, s.size);
    if n > 0 && Cell(s.start, s.size, n - 1) + WORD > s.end then Cell(s.start, s.size, n - 1) + WORD else s.end
  }

  ghost predicate IsCell(s: Slab, k: nat, a: nat) {
    exists i: nat :: i < k && Cell(s.start, s.size, i) == a
  }

  lemma CellsApart(s: Slab, k: nat, a: nat, b: nat)
    requires IsCell(s, k, a) && IsCell(s, k, b) && a != b
    ensures a + s.size <= b || b + s.size <= a
  {
    var i: nat :| i < k && Cell(s.start, s.size, i) == a;
    var j: nat :| j < k && Cell(s.start, s.size, j) == b;
    if i < j { CellOrder(s.start, s.size, i, j); } else { CellOrder(s.start, s.size, j, i); }
  }

  lemma CellBelow(s: Slab, k: nat, a: nat)
    requires IsCell(s, k, a)
    ensures s.start <= a && a + s.size <= Cell(s.start, s.size, k)
  {
    var i: nat :| i < k && Cell(s.start, s.size, i) == a;
    CellOrder(s.start, s.size, i, k);
  }

  /** The link word of every cell is within reach. */
  lemma LinkInReach(s: Slab, a: nat)
    requires WORD <= s.size && IsCell(s, CellCount(s.start, s.end, s.size), a)
    ensures s.start <= a && a + WORD <= Reach(s)
  {
    var n := CellCount(s.start, s.end, s.size);
    var i: nat :| i < n && Cell(s.start, s.size, i) == a;
    if i < n - 1 { CellOrder(s.start, s.size, i, n - 1); }
  }

  /** The region ends before the last cell does. */
  lemma ReachBelowLimit(s: Slab)
    requires WORD <= s.size && s.start <= s.end
    ensures s.end <= Reach(s) <= Limit(s)
  {
    var n := CellCount(s.start, s.end, s.size);
    CellCountExact(s.start, s.end, s.size, n);
  }

  // ---- Heap shape -----------------------------------------------------------------------------

  /** What `init` and the memory map guarantee about a slab. */
  ghost predicate Geometry(s: Slab, m: seq<byte>) {
    && 0 < s.start && WORD <= s.size
    && Limit(s) < Pow256(WORD) && Limit(s) <= |m|
  }

  ghost function Frontier(s: Slab, k: nat): (a: nat) { Cell(s.start, s.size, k) }

  /** The `i`-th stop of the chain: a freed cell, or the frontier after the last one. */
  ghost function Stop(s: Slab, free: seq<nat>, k: nat, i: nat): (a: nat)
  {
    if i < |free| then free[i] else Frontier(s, k)
  }

  /** From `next`, the links visit exactly `free` and end at the frontier. */
  ghost predicate Chained(s: Slab, m: seq<byte>, free: seq<nat>, k: nat) {
    && s.next == Stop(s, free, k, 0)
    && (forall i :: 0 <= i < |free| ==> Load(m, free[i]) == Stop(s, free, k, i + 1))
  }

  ghost predicate Distinct(free: seq<nat>) {
    forall i, j :: 0 <= i < j < |free| ==> free[i] != free[j]
  }

  /** The cells below the frontier are split between the free list and the live allocations. */
  ghost predicate Split(s: Slab, live: map<nat, nat>, free: seq<nat>, k: nat) {
    && Distinct(free)
    && (forall a :: a in free ==> IsCell(s, k, a) && a !in live)
    && (forall a :: a in live ==> IsCell(s, k, a) && live[a] <= s.size)
    && (forall i: nat :: i < k ==> Cell(s.start, s.size, i) in free || Cell(s.start, s.size, i) in live)
  }

  /** Nothing of the slab at or beyond the frontier has ever been written. */
  ghost predicate Untouched(s: Slab, m: seq<byte>, k: nat)
    requires Geometry(s, m)
  {
    forall a :: Frontier(s, k) <= a < Reach(s) && a < |m| ==> m[a] == 0
  }

  ghost predicate Shape(s: Slab, m: seq<byte>, live: map<nat, nat>, free: seq<nat>, k: nat) {
    && Geometry(s, m)
    && k <= CellCount(s.start, s.end, s.size)
    && Chained(s, m, free, k)
    && Split(s, live, free, k)
    && Untouched(s, m, k)
    && s.used == Sum(live)
  }

  /** The heap is well shaped for some free list and frontier. */
  ghost predicate Inv(s: Slab, m: seq<byte>, live: map<nat, nat>) {
    exists free: seq<nat>, k: nat :: Shape(s, m, live, free, k)
  }

  /** `m'` differs from `m` only inside live allocations of this slab, or outside its cells. */
  ghost predicate AgreesOutsideLive(s: Slab, m: seq<byte>, m': seq<byte>, live: map<nat, nat>)
    requires s.size > 0
  {
    && |m| == |m'|
    && (forall a :: s.start <= a < Reach(s) && a < |m| && !Owned(live, a) ==> m[a] == m'[a])
  }

  /** Address `a` lies inside a live allocation. */
  ghost predicate Owned(live: map<nat, nat>, a: nat) {
    exists p :: p in live && p <= a < p + live[p]
  }

  // ---- Each operation keeps the shape -----------------------------------------------------------

  lemma FrontierInMemory(s: Slab, m: seq<byte>, k: nat)
    requires Geometry(s, m) && k <= CellCount(s.start, s.end, s.size)
    ensures Frontier(s, k) <= Limit(s)
  {
    if k < CellCount(s.start, s.end, s.size) {
      CellOrder(s.start, s.size, k, CellCount(s.start, s.end, s.size));
    }
  }

  lemma CarvedCell(s: Slab, k: nat, a: nat)
    requires IsCell(s, k, a) && s.size > 0 && k <= CellCount(s.start, s.end, s.size)
    ensures IsCell(s, CellCount(s.start, s.end, s.size), a)
  {
    var i: nat :| i < k && Cell(s.start, s.size, i) == a;
    assert i < CellCount(s.start, s.end, s.size);
  }

  /** No byte of a free cell, and no byte at or past the frontier, belongs to a live allocation. */
  lemma NotOwned(s: Slab, live: map<nat, nat>, free: seq<nat>, k: nat, a: nat)
    requires Split(s, live, free, k)
    requires Frontier(s, k) <= a || exists c :: c in free && c <= a < c + s.size
    ensures !Owned(live, a)
  {
    forall p | p in live ensures !(p <= a < p + live[p]) {
      CellBelow(s, k, p);
      if a < Frontier(s, k) {
        var c :| c in free && c <= a < c + s.size;
        CellsApart(s, k, c, p);
      }
    }
  }

  /** Rewriting memory away from the cells of `free` keeps the links along `free`. */
  lemma LinksAgree(s: Slab, m: seq<byte>, m': seq<byte>, free: seq<nat>)
    requires |m| == |m'| && WORD <= s.size
    requires forall c, a :: c in free && c <= a < c + WORD && a < |m| ==> m[a] == m'[a]
    ensures forall i :: 0 <= i < |free| ==> Load(m', free[i]) == Load(m, free[i])
  {
    forall i | 0 <= i < |free| ensures Load(m', free[i]) == Load(m, free[i]) {
      assert free[i] in free;
      LoadAgree(m, m', free[i]);
    }
  }

  /** Changes inside live cells, or outside the slab, are invisible to the free list. */
  lemma FrameKeepsShape(s: Slab, m: seq<byte>, m': seq<byte>, live: map<nat, nat>, free: seq<nat>, k: nat)
    requires Shape(s, m, live, free, k)
    requires AgreesOutsideLive(s, m, m', live)
    ensures Shape(s, m', live, free, k)
  {
    forall c, a | c in free && c <= a < c + WORD && a < |m| ensures m[a] == m'[a] {
      CarvedCell(s, k, c);
      LinkInReach(s, c);
      NotOwned(s, live, free, k, a);
    }
    LinksAgree(s, m, m', free);
    forall a | Frontier(s, k) <= a < Reach(s) && a < |m| ensures m'[a] == 0 {
      NotOwned(s, live, free, k, a);
    }
  }

  lemma SplitPop(s: Slab, live: map<nat, nat>, free: seq<nat>, k: nat, request: nat)
    requires Split(s, live, free, k) && free != [] && request <= s.size
    ensures Split(s, live[free[0] := request], free[1..], k)
  {
    assert free[0] in free;
    assert forall a :: a in free[1..] ==> a in free && a != free[0];
    assert forall a :: a in free ==> a == free[0] || a in free[1..];
  }

  lemma SplitPush(s: Slab, live: map<nat, nat>, free: seq<nat>, k: nat, ptr: nat)
    requires Split(s, live, free, k) && ptr in live
    ensures Split(s, live - {ptr}, [ptr] + free, k)
  {
    var free' := [ptr] + free;
    assert forall a :: a in free' <==> a == ptr || a in free;
    forall i, j | 0 <= i < j < |free'| ensures free'[i] != free'[j] {
      assert free'[j] == free[j - 1] && free[j - 1] in free;
    }
  }

  /** `next` and `used` play no part in the split. */
  lemma SplitIgnoresNext(s: Slab, s': Slab, live: map<nat, nat>, free: seq<nat>, k: nat)
    requires Split(s, live, free, k) && s' == s.(next := s'.next, used := s'.used)
    ensures Split(s', live, free, k)
  {
    forall a | IsCell(s, k, a) ensures IsCell(s', k, a) {
      var i: nat :| i < k && Cell(s.start, s.size, i) == a;
      assert Cell(s'.start, s'.size, i) == a;
    }
  }

  /** Writing below the frontier, wherever that is now, leaves what is beyond it untouched. */
  lemma UntouchedKeeps(s: Slab, s': Slab, m: seq<byte>, m': seq<byte>, k: nat, k': nat)
    requires Geometry(s, m) && Untouched(s, m, k) && k <= k'
    requires s' == s.(next := s'.next, used := s'.used) && |m'| == |m|
    requires forall a :: Frontier(s, k') <= a < |m| ==> m'[a] == m[a]
    ensures Geometry(s', m') && Untouched(s', m', k')
  {
    if k < k' { CellOrder(s.start, s.size, k, k'); }
    assert Limit(s') == Limit(s) && Reach(s') == Reach(s) && Frontier(s', k') == Frontier(s, k');
  }

  lemma AllocFromList(s: Slab, m: seq<byte>, live: map<nat, nat>, free: seq<nat>, k: nat, request: nat)
    requires Shape(s, m, live, free, k) && free != [] && request <= s.size
    ensures var (p, s', m') := Alloc(s, m, request);
            && p == free[0] && p !in live
            && Shape(s', m', live[p := request], free[1..], k)
  {
    var p := free[0];
    assert p in free;
    CellBelow(s, k, p);
    FrontierInMemory(s, m, k);
    assert p < s.end by {
      var i: nat :| i < k && Cell(s.start, s.size, i) == p;
      CellCountExact(s.start, s.end, s.size, i);
    }
    assert Load(m, free[0]) == Stop(s, free, k, 1) > 0 by {
      if |free| > 1 { assert free[1] in free; CellBelow(s, k, free[1]); }
    }
    var (q, s', m') := Alloc(s, m, request);
    forall c, a | c in free[1..] && c <= a < c + WORD && a < |m| ensures m[a] == m'[a] {
      assert c in free && c != p;
      CellsApart(s, k, p, c);
    }
    LinksAgree(s, m, m', free[1..]);
    UntouchedKeeps(s, s', m, m', k, k);
    SplitPop(s, live, free, k, request);
    SplitIgnoresNext(s, s', live[p := request], free[1..], k);
    SumInsert(live, p, request);
  }

  lemma AllocFromFrontier(s: Slab, m: seq<byte>, live: map<nat, nat>, k: nat, request: nat)
    requires Shape(s, m, live, [], k) && k < CellCount(s.start, s.end, s.size) && request <= s.size
    ensures var (p, s', m') := Alloc(s, m, request);
            && p == Frontier(s, k)
            && p !in live
            && Shape(s', m', live[p := request], [], k + 1)
  {
    var p := Frontier(s, k);
    FrontierAnswer(s, m, k, request);
    var (q, s', m') := Alloc(s, m, request);
    UntouchedKeeps(s, s', m, m', k, k + 1);
    SplitGrow(s, live, k, request);
    SplitIgnoresNext(s, s', live[p := request], [], k + 1);
    SumInsert(live, p, request);
  }

  /** The zero link of the first untouched cell makes `next` move on by one cell. */
  lemma FrontierAnswer(s: Slab, m: seq<byte>, k: nat, request: nat)
    requires Geometry(s, m) && Untouched(s, m, k) && k < CellCount(s.start, s.end, s.size) && s.next == Frontier(s, k)
    ensures s.next + WORD <= |m|
    ensures Alloc(s, m, request)
            == (s.next, s.(next := Frontier(s, k + 1), used := s.used + request), Store(m, s.next, 0))
  {
    var n := CellCount(s.start, s.end, s.size);
    CellCountExact(s.start, s.end, s.size, k);
    CellOrder(s.start, s.size, k, n);
    assert IsCell(s, n, s.next);
    LinkInReach(s, s.next);
    LoadZero(m, s.next);
  }

  /** With nothing free, the cell at the frontier joins the live ones. */
  lemma SplitGrow(s: Slab, live: map<nat, nat>, k: nat, request: nat)
    requires Split(s, live, [], k) && request <= s.size && 0 < s.size
    ensures Frontier(s, k) !in live && Split(s, live[Frontier(s, k) := request], [], k + 1)
  {
    var p := Frontier(s, k);
    if p in live { CellBelow(s, k, p); }
    assert IsCell(s, k + 1, p);
    forall a | IsCell(s, k, a) ensures IsCell(s, k + 1, a) {
      var i: nat :| i < k && Cell(s.start, s.size, i) == a;
      assert i < k + 1;
    }
  }

  lemma DeallocKeepsShape(s: Slab, m: seq<byte>, live: map<nat, nat>, free: seq<nat>, k: nat, ptr: nat)
    requires Shape(s, m, live, free, k) && ptr in live
    ensures var (s', m') := Dealloc(s, m, ptr, live[ptr]);
            Shape(s', m', live - {ptr}, [ptr] + free, k)
  {
    var (s', m') := Dealloc(s, m, ptr, live[ptr]);
    CellBelow(s, k, ptr);
    FrontierInMemory(s, m, k);
    if free != [] { assert free[0] in free; CellBelow(s, k, free[0]); }
    LoadStoreSame(m, ptr, s.next);
    forall c, a | c in free && c <= a < c + WORD && a < |m| ensures m[a] == m'[a] {
      CellsApart(s, k, ptr, c);
    }
    LinksAgree(s, m, m', free);
    UntouchedKeeps(s, s', m, m', k, k);
    SplitPush(s, live, free, k, ptr);
    SplitIgnoresNext(s, s', live - {ptr}, [ptr] + free, k);
    SumRemove(live, ptr);
  }

  // ---- Runs -------------------------------------------------------------------------------------

  /** A slab, the memory, and what its client holds: pointer to requested size. */
  datatype World = World(slab: Slab, mem: seq<byte>, live: map<nat, nat>)

  datatype Event = Request(bytes: nat) | Release(ptr: nat) | Write(addr: nat, value: byte)

  /** Clients free only what they hold and write only inside what they hold. */
  ghost predicate Allowed(w: World, e: Event) {
    match e
    case Request(bytes) => bytes <= w.slab.size
    case Release(ptr) => ptr in w.live
    case Write(addr, _) => Owned(w.live, addr)
  }

  function Step(w: World, e: Event): (w': World)
  {
    match e
    case Request(bytes) =>
      var (p, s', m') := Alloc(w.slab, w.mem, bytes);
      World(s', m', if p == 0 then w.live else w.live[p := bytes])
    case Release(ptr) =>
      if ptr !in w.live then w else
      var (s', m') := Dealloc(w.slab, w.mem, ptr, w.live[ptr]);
      World(s', m', w.live - {ptr})
    case Write(addr, value) => w.(mem := Put(w.mem, addr, [value]))
  }

  function Run(w: World, es: seq<Event>): (w': World)
  {
    if es == [] then w else Step(Run(w, es[..|es| - 1]), es[|es| - 1])
  }

  ghost predicate Legal(w: World, es: seq<Event>) {
    es == [] || (Legal(w, es[..|es| - 1]) && Allowed(Run(w, es[..|es| - 1]), es[|es| - 1]))
  }

  /** The state right after `init` over memory that reads as zero. */
  ghost predicate Fresh(w: World) {
    && w.slab.next == w.slab.start && w.slab.used == 0 && w.live == map[]
    && Geometry(w.slab, w.mem)
    && Untouched(w.slab, w.mem, 0)
  }

  /** Whatever a client holds, and what `alloc` would hand out next, is one of the slab's cells. */
  lemma ReachableCell(s: Slab, m: seq<byte>, live: map<nat, nat>, a: nat)
    requires Inv(s, m, live)
    requires a in live || (a == s.next && a < s.end)
    ensures IsCell(s, CellCount(s.start, s.end, s.size), a)
  {
    var n := CellCount(s.start, s.end, s.size);
    var free: seq<nat>, k: nat :| Shape(s, m, live, free, k);
    if a in live || free != [] {
      assert a in live || a in free;
      var i: nat :| i < k && Cell(s.start, s.size, i) == a;
      assert i < n;
    } else {
      CellCountExact(s.start, s.end, s.size, k);
      assert Cell(s.start, s.size, k) == a;
    }
  }

  lemma AllocKeepsInv(s: Slab, m: seq<byte>, live: map<nat, nat>, request: nat)
    requires Inv(s, m, live) && request <= s.size
    ensures var (p, s', m') := Alloc(s, m, request);
            && Inv(s', m', if p == 0 then live else live[p := request])
            && (p == 0 ==> s' == s && m' == m)
            && (p != 0 ==> p !in live && IsCell(s, CellCount(s.start, s.end, s.size), p) && Load(m', p) == 0)
  {
    var n := CellCount(s.start, s.end, s.size);
    var free: seq<nat>, k: nat :| Shape(s, m, live, free, k);
    var (p, s', m') := Alloc(s, m, request);
    if free != [] {
      AllocFromList(s, m, live, free, k, request);
      assert p in free;
      CellBelow(s, k, p);
      var i: nat :| i < k && Cell(s.start, s.size, i) == p;
      assert i < n;
    } else if k < n {
      AllocFromFrontier(s, m, live, k, request);
      assert Cell(s.start, s.size, k) == p;
    } else {
      CellCountExact(s.start, s.end, s.size, k);
    }
    if p != 0 { LinkCleared(s, m, p, request); }
  }

  /** What is handed out carries no link. */
  lemma LinkCleared(s: Slab, m: seq<byte>, p: nat, request: nat)
    requires Geometry(s, m) && p != 0 && Alloc(s, m, request).0 == p
    requires IsCell(s, CellCount(s.start, s.end, s.size), p)
    ensures Load(Alloc(s, m, request).2, p) == 0
  {
    LinkInReach(s, p);
    ReachBelowLimit(s);
    LoadStoreSame(m, p, 0);
  }

  /** Every cell of the slab is held. */
  ghost predicate AllOut(s: Slab, live: map<nat, nat>)
    requires s.size > 0
  {
    forall i: nat :: i < CellCount(s.start, s.end, s.size) ==> Cell(s.start, s.size, i) in live
  }

  /** `alloc` answers null exactly when there is no cell left. */
  lemma AllocNullIff(s: Slab, m: seq<byte>, live: map<nat, nat>, request: nat)
    requires Inv(s, m, live) && request <= s.size
    ensures s.size > 0 && (Alloc(s, m, request).0 == 0 <==> AllOut(s, live))
  {
    var n := CellCount(s.start, s.end, s.size);
    var free: seq<nat>, k: nat :| Shape(s, m, live, free, k);
    if free != [] {
      AllocFromList(s, m, live, free, k, request);
      assert free[0] in free;
      CellBelow(s, k, free[0]);
      var i: nat :| i < k && Cell(s.start, s.size, i) == free[0];
      assert Cell(s.start, s.size, i) !in live && i < n;
    } else if k < n {
      AllocFromFrontier(s, m, live, k, request);
      assert Cell(s.start, s.size, k) !in live;
    } else {
      CellCountExact(s.start, s.end, s.size, k);
    }
  }

  lemma DeallocKeepsInv(s: Slab, m: seq<byte>, live: map<nat, nat>, ptr: nat)
    requires Inv(s, m, live) && ptr in live
    ensures var (s', m') := Dealloc(s, m, ptr, live[ptr]); Inv(s', m', live - {ptr})
  {
    var free: seq<nat>, k: nat :| Shape(s, m, live, free, k);
    DeallocKeepsShape(s, m, live, free, k, ptr);
  }

  lemma FrameKeepsInv(s: Slab, m: seq<byte>, m': seq<byte>, live: map<nat, nat>)
    requires Inv(s, m, live) && AgreesOutsideLive(s, m, m', live)
    ensures Inv(s, m', live)
  {
    var free: seq<nat>, k: nat :| Shape(s, m, live, free, k);
    FrameKeepsShape(s, m, m', live, free, k);
  }

  lemma StepKeepsInv(w: World, e: Event)
    requires Inv(w.slab, w.mem, w.live) && Allowed(w, e)
    ensures var w' := Step(w, e); Inv(w'.slab, w'.mem, w'.live)
  {
    match e
    case Request(bytes) => AllocKeepsInv(w.slab, w.mem, w.live, bytes);
    case Release(ptr) => DeallocKeepsInv(w.slab, w.mem, w.live, ptr);
    case Write(addr, value) => FrameKeepsInv(w.slab, w.mem, Step(w, e).mem, w.live);
  }

  /** Heap shape over every run: the chain from `next` is acyclic, visits each freed cell exactly
      once, avoids the live cells and ends at a frontier past which the region is still zero; `used` is
      the sum of the live requests. */
  lemma {:induction false} RunKeepsInv(w: World, es: seq<Event>)
    requires Fresh(w) && Legal(w, es)
    ensures var w' := Run(w, es); Inv(w'.slab, w'.mem, w'.live)
  {
    if es == [] {
      assert Shape(w.slab, w.mem, w.live, [], 0);
    } else {
      RunKeepsInv(w, es[..|es| - 1]);
      StepKeepsInv(Run(w, es[..|es| - 1]), es[|es| - 1]);
    }
  }

  lemma {:induction false} RunKeepsRegion(w: World, es: seq<Event>)
    ensures var s := Run(w, es).slab;
            s.start == w.slab.start && s.end == w.slab.end && s.size == w.slab.size
  {
    if es != [] { RunKeepsRegion(w, es[..|es| - 1]); }
  }

  /** After any run, `alloc` answers null exactly when every cell is live; otherwise it answers a cell
      nobody holds, apart from every held cell, whose link word lies inside memory. */
  lemma AllocAnswer(w: World, es: seq<Event>, request: nat)
    requires Fresh(w) && Legal(w, es) && request <= w.slab.size
    ensures var v := Run(w, es);
            var n := CellCount(w.slab.start, w.slab.end, w.slab.size);
            var (p, s', m') := Alloc(v.slab, v.mem, request);
            && (p == 0 <==> AllOut(w.slab, v.live))
            && (p != 0 ==>
                  && IsCell(w.slab, n, p) && p !in v.live
                  && p + WORD <= |v.mem|
                  && forall q :: q in v.live ==> p + w.slab.size <= q || q + w.slab.size <= p)
  {
    var v := Run(w, es);
    var n := CellCount(w.slab.start, w.slab.end, w.slab.size);
    RunKeepsInv(w, es);
    RunKeepsRegion(w, es);
    AllocKeepsInv(v.slab, v.mem, v.live, request);
    AllocNullIff(v.slab, v.mem, v.live, request);
    assert AllOut(v.slab, v.live) <==> AllOut(w.slab, v.live);
    var p := Alloc(v.slab, v.mem, request).0;
    if p != 0 {
      CellBelow(v.slab, n, p);
      forall q | q in v.live ensures p + w.slab.size <= q || q + w.slab.size <= p {
        ReachableCell(v.slab, v.mem, v.live, q);
        CellsApart(v.slab, n, p, q);
      }
      SameCell(v.slab, w.slab, n, p);
    }
  }

  lemma SameCell(s: Slab, s': Slab, n: nat, a: nat)
    requires IsCell(s, n, a) && s'.start == s.start && s'.size == s.size
    ensures IsCell(s', n, a)
  {
    var i: nat :| i < n && Cell(s.start, s.size, i) == a;
    assert Cell(s'.start, s'.size, i) == a;
  }

  // ---- When allocations stay inside the region, and aligned -----------------------------------

  lemma {:induction false} FitsIff(start: nat, end: nat, size: nat)
    requires size > 0 && start <= end
    ensures Cell(start, size, CellCount(start, end, size)) == end <==> (end - start) % size == 0
    decreases end - start
  {
    if start < end {
      var n := CellCount(start + size, end, size);
      CellShift(start, size, n);
      if start + size <= end {
        FitsIff(start + size, end, size);
        ModStep(end - start - size, size);
      } else {
        Small(end - start, size);
      }
    }
  }

  lemma {:induction false} CellMod(start: nat, size: nat, i: nat)
    requires size > 0
    ensures Cell(start, size, i) % size == start % size
  {
    if i > 0 { CellMod(start, size, i - 1); ModStep(Cell(start, size, i - 1), size); }
  }

  lemma {:induction false} CellKeepsMod(start: nat, size: nat, i: nat, d: nat)
    requires d > 0 && size % d == 0
    ensures Cell(start, size, i) % d == start % d
  {
    if i > 0 {
      CellKeepsMod(start, size, i - 1, d);
      AddMultiple(Cell(start, size, i - 1), size, d);
    }
  }

  /** `j` full-size requests in a row. */
  function Fill(size: nat, j: nat): (es: seq<Event>)
    ensures |es| == j
  {
    if j == 0 then [] else Fill(size, j - 1) + [Request(size)]
  }

  /** The first `j` cells are out, whole. */
  ghost predicate FirstOut(s: Slab, live: map<nat, nat>, j: nat) {
    forall i: nat :: i < j ==> Cell(s.start, s.size, i) in live && live[Cell(s.start, s.size, i)] == s.size
  }

  lemma {:induction false} FillRun(w: World, j: nat)
    requires Fresh(w) && j <= CellCount(w.slab.start, w.slab.end, w.slab.size)
    ensures Legal(w, Fill(w.slab.size, j))
    ensures var v := Run(w, Fill(w.slab.size, j));
            && Shape(v.slab, v.mem, v.live, [], j)
            && FirstOut(w.slab, v.live, j)
  {
    if j > 0 {
      var es := Fill(w.slab.size, j - 1);
      FillRun(w, j - 1);
      RunKeepsRegion(w, es);
      RunOneMore(w, es, Request(w.slab.size));
      FillOne(w.slab, Run(w, es), j - 1);
    }
  }

  /** One more full-size request, in a world `u` of slab `s`. */
  lemma FillOne(s: Slab, u: World, j: nat)
    requires u.slab.start == s.start && u.slab.end == s.end && u.slab.size == s.size
    requires Shape(u.slab, u.mem, u.live, [], j) && FirstOut(s, u.live, j) && j < CellCount(s.start, s.end, s.size)
    ensures var v := Step(u, Request(s.size));
            Allowed(u, Request(s.size)) && Shape(v.slab, v.mem, v.live, [], j + 1) && FirstOut(s, v.live, j + 1)
  {
    SameCells(s, u.slab, u.live, j);
    FillStep(u, j);
    SameCells(s, u.slab, Step(u, Request(s.size)).live, j + 1);
  }

  lemma SameCells(s: Slab, s': Slab, live: map<nat, nat>, j: nat)
    requires s'.start == s.start && s'.size == s.size
    ensures FirstOut(s, live, j) <==> FirstOut(s', live, j)
  {
  }

  lemma RunOneMore(w: World, es: seq<Event>, e: Event)
    ensures Run(w, es + [e]) == Step(Run(w, es), e)
    ensures Legal(w, es + [e]) <==> Legal(w, es) && Allowed(Run(w, es), e)
  {
    assert (es + [e])[..|es + [e]| - 1] == es;
  }

  /** All cells but the last can be handed out whatever lies past the region: then the next one is the last. */
  lemma FillAlmost(w: World, j: nat)
    requires w.slab.next == w.slab.start && w.slab.used == 0 && w.live == map[]
    requires 0 < w.slab.start < w.slab.end <= |w.mem| < Pow256(WORD) && WORD <= w.slab.size
    requires j + 1 == CellCount(w.slab.start, w.slab.end, w.slab.size)
    requires forall a :: w.slab.start <= a < w.slab.end ==> w.mem[a] == 0
    ensures var v := Run(w, Fill(w.slab.size, j));
            v.slab.next == Cell(w.slab.start, w.slab.size, j) < v.slab.end && v.slab.size == w.slab.size
  {
    var s := w.slab;
    var w' := w.(slab := s.(end := Cell(s.start, s.size, j)));
    CellCountExact(s.start, s.end, s.size, j);
    ShortCount(s.start, s.size, j);
    ReachBelowLimit(w'.slab);
    assert Fresh(w');
    ShortRun(w, w', j, j);
    FillRun(w', j);
    RunKeepsRegion(w, Fill(s.size, j));
    RunKeepsRegion(w', Fill(s.size, j));
  }

  lemma ShortCount(start: nat, size: nat, j: nat)
    requires size > 0
    ensures CellCount(start, Cell(start, size, j), size) == j
  {
    CellCountExact(start, Cell(start, size, j), size, j);
    if j > 0 { CellCountExact(start, Cell(start, size, j), size, j - 1); }
  }

  /** A slab that ends at cell `n` does the same for the first `n` requests. */
  lemma {:induction false} ShortRun(w: World, w': World, n: nat, j: nat)
    requires Fresh(w') && w' == w.(slab := w.slab.(end := Cell(w.slab.start, w.slab.size, n))) && j <= n
    requires Cell(w.slab.start, w.slab.size, n) <= w.slab.end
    ensures var (v, v') := (Run(w, Fill(w.slab.size, j)), Run(w', Fill(w.slab.size, j)));
            v == v'.(slab := v'.slab.(end := w.slab.end))
  {
    if j > 0 {
      var es := Fill(w.slab.size, j);
      assert es[..|es| - 1] == Fill(w.slab.size, j - 1);
      ShortRun(w, w', n, j - 1);
      ShortNext(w', n, j - 1);
      ShortStep(Run(w, Fill(w.slab.size, j - 1)), Run(w', Fill(w.slab.size, j - 1)), w.slab.end, w.slab.size);
    }
  }

  lemma ShortNext(w: World, n: nat, j: nat)
    requires Fresh(w) && w.slab.end == Cell(w.slab.start, w.slab.size, n) && j < n
    ensures Run(w, Fill(w.slab.size, j)).slab.next < Run(w, Fill(w.slab.size, j)).slab.end == w.slab.end
  {
    ShortCount(w.slab.start, w.slab.size, n);
    FillRun(w, j);
    RunKeepsRegion(w, Fill(w.slab.size, j));
    CellOrder(w.slab.start, w.slab.size, j, n);
  }

  lemma ShortStep(v: World, v': World, end: nat, bytes: nat)
    requires v == v'.(slab := v'.slab.(end := end)) && v'.slab.next < v'.slab.end <= end
    ensures Step(v, Request(bytes)) == Step(v', Request(bytes)).(slab := Step(v', Request(bytes)).slab.(end := end))
  {
  }

  lemma FillStep(u: World, j: nat)
    requires Shape(u.slab, u.mem, u.live, [], j) && j < CellCount(u.slab.start, u.slab.end, u.slab.size)
    ensures var v := Step(u, Request(u.slab.size));
            && Shape(v.slab, v.mem, v.live, [], j + 1)
            && v.live == u.live[Cell(u.slab.start, u.slab.size, j) := u.slab.size]
            && (FirstOut(u.slab, u.live, j) ==> FirstOut(u.slab, v.live, j + 1))
  {
    AllocFromFrontier(u.slab, u.mem, u.live, j, u.slab.size);
    forall i: nat | i < j ensures Cell(u.slab.start, u.slab.size, i) != Cell(u.slab.start, u.slab.size, j) {
      CellOrder(u.slab.start, u.slab.size, i, j);
    }
  }

  /** Every allocation held after `es` ends inside the slab's own region. */
  ghost predicate InRegion(w: World) {
    forall p :: p in w.live ==> w.slab.start <= p && p + w.live[p] <= w.slab.end
  }

  lemma FittingStaysInRegion(w: World, es: seq<Event>)
    requires Fresh(w) && Legal(w, es) && Limit(w.slab) == w.slab.end
    ensures InRegion(Run(w, es))
  {
    var v := Run(w, es);
    RunKeepsInv(w, es);
    RunKeepsRegion(w, es);
    var free: seq<nat>, k: nat :| Shape(v.slab, v.mem, v.live, free, k);
    FrontierInMemory(v.slab, v.mem, k);
    forall p | p in v.live ensures v.slab.start <= p && p + v.live[p] <= v.slab.end { CellBelow(v.slab, k, p); }
  }

  lemma FillEscapes(w: World)
    requires Fresh(w) && w.slab.start <= w.slab.end < Limit(w.slab)
    ensures var es := Fill(w.slab.size, CellCount(w.slab.start, w.slab.end, w.slab.size));
            Legal(w, es) && !InRegion(Run(w, es))
  {
    var n := CellCount(w.slab.start, w.slab.end, w.slab.size);
    var es := Fill(w.slab.size, n);
    FillRun(w, n);
    RunKeepsRegion(w, es);
    var p := Cell(w.slab.start, w.slab.size, n - 1);
    assert p in Run(w, es).live && Run(w, es).live[p] == w.slab.size;
  }

  /** Allocations stay inside the region in every run exactly when the region length is a multiple of
      the cell size: `alloc` only checks where a cell starts. */
  lemma StaysInRegionIff(w: World)
    requires Fresh(w) && w.slab.start <= w.slab.end
    ensures (forall es :: Legal(w, es) ==> InRegion(Run(w, es)))
            <==> (w.slab.end - w.slab.start) % w.slab.size == 0
  {
    FitsIff(w.slab.start, w.slab.end, w.slab.size);
    CellCountExact(w.slab.start, w.slab.end, w.slab.size, CellCount(w.slab.start, w.slab.end, w.slab.size));
    if Limit(w.slab) == w.slab.end {
      forall es | Legal(w, es) ensures InRegion(Run(w, es)) { FittingStaysInRegion(w, es); }
    } else {
      FillEscapes(w);
    }
  }

  ghost predicate AlignedTo(w: World, align: nat)
    requires align > 0
  {
    forall p :: p in w.live ==> p % align == 0
  }

  /** Cells are aligned to their size in every run exactly when the region is (or is empty): the
      assertion in `init` looks at the previous, still zero, `start`. */
  lemma StaysAlignedIff(w: World)
    requires Fresh(w) && w.slab.start <= w.slab.end
    ensures (forall es :: Legal(w, es) ==> AlignedTo(Run(w, es), w.slab.size))
            <==> w.slab.start == w.slab.end || w.slab.start % w.slab.size == 0
  {
    if w.slab.start == w.slab.end || w.slab.start % w.slab.size == 0 {
      forall es | Legal(w, es) ensures AlignedTo(Run(w, es), w.slab.size) { AlignedStaysAligned(w, es); }
    } else {
      var es := Fill(w.slab.size, 1);
      FillRun(w, 1);
      assert Cell(w.slab.start, w.slab.size, 0) in Run(w, es).live;
      assert !AlignedTo(Run(w, es), w.slab.size);
    }
  }

  lemma AlignedStaysAligned(w: World, es: seq<Event>)
    requires Fresh(w) && Legal(w, es) && (w.slab.start == w.slab.end || w.slab.start % w.slab.size == 0)
    ensures AlignedTo(Run(w, es), w.slab.size)
  {
    var v := Run(w, es);
    RunKeepsInv(w, es);
    RunKeepsRegion(w, es);
    forall p | p in v.live ensures p % w.slab.size == 0 {
      ReachableCell(v.slab, v.mem, v.live, p);
      var n := CellCount(v.slab.start, v.slab.end, v.slab.size);
      var i: nat :| i < n && Cell(v.slab.start, v.slab.size, i) == p;
      CellMod(w.slab.start, w.slab.size, i);
    }
  }
}
