/** The physical frame allocator: a lazy walk over the usable regions, with a free list whose nodes live in
    a bump-allocated byte array that never gives memory back. */
module Frames {
  import opened Bytes
  import opened Wrappers
  import opened Arith

  const PAGE: nat := 4096

  /** `FreePhysFrame`: the frame's address, then the pointer to the next node. */
  const NODE: nat := 16

  // ---- The bump allocator ---------------------------------------------------------------------

  /** `StackAllocatorInner`, whose byte array starts at address `base`. */
  datatype Stack = Stack(base: nat, mem: seq<byte>, current: nat)

  ghost predicate StackValid(st: Stack) {
    0 < st.base && st.base + |st.mem| < Pow256(WORD) && st.current <= |st.mem|
  }

  /** `StackAllocator::allocate`: note the `>=`, and that the layout's alignment is not looked at. */
  function Bump(st: Stack, size: nat): (r: Option<(nat, Stack)>)
  {
    if st.current + size >= |st.mem| then None
    else Some((st.base + st.current, st.(current := st.current + size)))
  }

  // ---- The frame allocator --------------------------------------------------------------------

  /** `free` points at the first free node (0 is null); `rest` is what the region walk will still yield. */
  datatype Allocator = Allocator(stack: Stack, free: nat, rest: seq<nat>)

  function NodeFrame(st: Stack, p: nat): (f: nat) { if p < st.base then 0 else Load(st.mem, p - st.base) }
  function NodeNext(st: Stack, p: nat): (q: nat) { if p < st.base then 0 else Load(st.mem, p - st.base + WORD) }

  /** `allocate_frame`. */
  function Take(a: Allocator): (r: (Option<nat>, Allocator))
  {
    if a.free != 0 then (Some(NodeFrame(a.stack, a.free)), a.(free := NodeNext(a.stack, a.free)))
    else if a.rest != [] then (Some(a.rest[0]), a.(rest := a.rest[1..]))
    else (None, a)
  }

  /** `deallocate_frame`; None is the panic of the `unwrap` inside `own`. */
  function Give(a: Allocator, frame: nat): (r: Option<Allocator>)
  {
    match Bump(a.stack, NODE)
    case None => None
    case Some((p, st)) =>
      var mem := Store(Store(st.mem, p - st.base, frame), p - st.base + WORD, a.free);
      Some(Allocator(st.(mem := mem), p, a.rest))
  }

  /** The list is null-terminated, lies below `limit`, and every node lies wholly below its predecessor;
      so it is acyclic and its nodes never overlap. */
  ghost predicate Chain(st: Stack, p: nat, limit: nat)
    decreases p
  {
    p == 0 || (st.base <= p && p + NODE <= limit <= st.base + |st.mem|
               && NodeNext(st, p) < p && Chain(st, NodeNext(st, p), p))
  }

  ghost function Listed(st: Stack, p: nat): (frames: seq<nat>)
    decreases p
  {
    if p == 0 || NodeNext(st, p) >= p then []
    else [NodeFrame(st, p)] + Listed(st, NodeNext(st, p))
  }

  ghost predicate Valid(a: Allocator) {
    StackValid(a.stack) && Chain(a.stack, a.free, a.stack.base + a.stack.current)
  }

  /** The frames the allocator still owns, in the order it will hand them out. */
  ghost function Available(a: Allocator): (frames: seq<nat>)
  {
    Listed(a.stack, a.free) + a.rest
  }

  lemma {:induction false} ChainFrame(st: Stack, st': Stack, p: nat, limit: nat, limit': nat)
    requires Chain(st, p, limit) && st.base == st'.base && |st.mem| == |st'.mem|
    requires limit <= limit' <= st.base + |st.mem|
    requires forall i :: 0 <= i < |st.mem| && i < limit - st.base ==> st.mem[i] == st'.mem[i]
    ensures Chain(st', p, limit') && Listed(st', p) == Listed(st, p)
    decreases p
  {
    if p != 0 {
      LoadAgree(st.mem, st'.mem, p - st.base);
      LoadAgree(st.mem, st'.mem, p - st.base + WORD);
      ChainFrame(st, st', NodeNext(st, p), p, p);
    }
  }

  /** Taking hands out the first available frame, and fails exactly when there is none. */
  lemma TakeFirst(a: Allocator)
    requires Valid(a)
    ensures var (r, a') := Take(a);
            && Valid(a')
            && (r == None <==> Available(a) == [])
            && (r == None ==> a' == a)
            && (r.Some? ==> Available(a) == [r.value] + Available(a'))
  {
    if a.free != 0 {
      var later := NodeNext(a.stack, a.free);
      ChainFrame(a.stack, a.stack, later, a.free, a.stack.base + a.stack.current);
      ConsAppend(NodeFrame(a.stack, a.free), Listed(a.stack, later), a.rest);
    } else if a.rest != [] {
      var a' := Take(a).1;
      assert Available(a) == a.rest && Available(a') == a.rest[1..];
    }
  }

  /** The new node reads back as written, and nothing below it has changed. */
  lemma NodeWritten(st: Stack, frame: nat, next: nat)
    requires StackValid(st) && st.current + NODE < |st.mem| && frame < Pow256(WORD) && next < Pow256(WORD)
    ensures var p := st.base + st.current;
            var st' := st.(mem := Store(Store(st.mem, st.current, frame), st.current + WORD, next));
            && NodeFrame(st', p) == frame && NodeNext(st', p) == next
            && forall i :: 0 <= i < st.current ==> st'.mem[i] == st.mem[i]
  {
    var m1 := Store(st.mem, st.current, frame);
    LoadStoreSame(st.mem, st.current, frame);
    LoadStoreSame(m1, st.current + WORD, next);
    LoadAgree(m1, Store(m1, st.current + WORD, next), st.current);
  }

  /** Giving puts the frame at the front, and panics exactly when the node array is full. */
  lemma GiveFront(a: Allocator, frame: nat)
    requires Valid(a) && frame < Pow256(WORD)
    ensures Give(a, frame) == None <==> a.stack.current + NODE >= |a.stack.mem|
    ensures Give(a, frame).Some? ==>
              var a' := Give(a, frame).value;
              Valid(a') && Available(a') == [frame] + Available(a)
              && a'.stack.current == a.stack.current + NODE && |a'.stack.mem| == |a.stack.mem|
  {
    if a.stack.current + NODE < |a.stack.mem| {
      var a' := Give(a, frame).value;
      GiveLists(a, frame, a');
      calc {
        Available(a');
        [frame] + Listed(a.stack, a.free) + a.rest;
        { ConsAppend(frame, Listed(a.stack, a.free), a.rest); }
        [frame] + Available(a);
      }
    }
  }

  lemma GiveLists(a: Allocator, frame: nat, a': Allocator)
    requires Valid(a) && frame < Pow256(WORD) && a.stack.current + NODE < |a.stack.mem| && Give(a, frame) == Some(a')
    ensures Valid(a') && Listed(a'.stack, a'.free) == [frame] + Listed(a.stack, a.free)
  {
    var c := a.stack.current;
    NodeWritten(a.stack, frame, a.free);
    assert NodeFrame(a'.stack, a'.free) == frame && NodeNext(a'.stack, a'.free) == a.free;
    ChainFrame(a.stack, a'.stack, a.free, a.stack.base + c, a.stack.base + c);
  }

  lemma ConsAppend(x: nat, a: seq<nat>, b: seq<nat>)
    ensures [x] + a + b == [x] + (a + b)
  {
  }

  // ---- Which frames there are -----------------------------------------------------------------

  datatype Region = Region(base: nat, len: nat, usable: bool)

  /** `(base..end).step_by(4096)`, each address mapped to the frame containing it. */
  function StepFrames(base: nat, end: nat): (frames: seq<nat>)
    decreases if base < end then end - base else 0
  {
    if base >= end then [] else [base / PAGE] + StepFrames(base + PAGE, end)
  }

  function UsableFrames(regions: seq<Region>): (frames: seq<nat>)
  {
    if regions == [] then [] else RegionFrames(regions[0]) + UsableFrames(regions[1..])
  }

  function RegionFrames(r: Region): (frames: seq<nat>)
  {
    if r.usable then StepFrames(r.base, r.base + r.len) else []
  }

  ghost predicate NoDup(s: seq<nat>) {
    forall i, j :: 0 <= i < j < |s| ==> s[i] != s[j]
  }

  /** Page-aligned usable regions that do not overlap, as the boot protocol promises. */
  ghost predicate GoodRegions(regions: seq<Region>) {
    && (forall i :: 0 <= i < |regions| && regions[i].usable ==>
          regions[i].base % PAGE == 0 && regions[i].len % PAGE == 0)
    && (forall i, j :: 0 <= i < j < |regions| && regions[i].usable && regions[j].usable ==>
          regions[i].base + regions[i].len <= regions[j].base || regions[j].base + regions[j].len <= regions[i].base)
  }

  /** A frame is stepped over exactly when it lies in the region. */
  lemma {:induction false} StepFramesExact(base: nat, end: nat, f: nat)
    requires base % PAGE == 0 && end % PAGE == 0
    ensures f in StepFrames(base, end) <==> base <= f * PAGE < end
    ensures NoDup(StepFrames(base, end))
    decreases if base < end then end - base else 0
  {
    if base < end {
      StepFramesExact(base + PAGE, end, f);
      StepFramesExact(base + PAGE, end, base / PAGE);
      var rest := StepFrames(base + PAGE, end);
      forall i, j | 0 <= i < j < |([base / PAGE] + rest)|
        ensures ([base / PAGE] + rest)[i] != ([base / PAGE] + rest)[j]
      {
        assert rest[j - 1] in rest;
      }
    }
  }

  /** The walk goes up frame by frame, from the first of the region to the last. */
  lemma {:induction false} StepFramesInOrder(base: nat, end: nat)
    requires base % PAGE == 0 && end % PAGE == 0 && base <= end
    ensures |StepFrames(base, end)| == end / PAGE - base / PAGE
    ensures forall i :: 0 <= i < |StepFrames(base, end)| ==> StepFrames(base, end)[i] == base / PAGE + i
    decreases end - base
  {
    if base < end { StepFramesInOrder(base + PAGE, end); }
  }

  ghost predicate Holds(r: Region, f: nat) { r.usable && r.base <= f * PAGE < r.base + r.len }

  lemma RegionFramesExact(r: Region, f: nat)
    requires r.usable ==> r.base % PAGE == 0 && r.len % PAGE == 0
    ensures f in RegionFrames(r) <==> Holds(r, f)
    ensures NoDup(RegionFrames(r))
  {
    if r.usable { StepFramesExact(r.base, r.base + r.len, f); }
  }

  /** The usable frames are exactly those some usable region holds. */
  lemma {:induction false} UsableFramesExact(regions: seq<Region>, f: nat)
    requires GoodRegions(regions)
    ensures f in UsableFrames(regions) <==> exists r :: r in regions && Holds(r, f)
  {
    if regions != [] {
      var r := regions[0];
      assert regions == [r] + regions[1..];
      UsableFramesExact(regions[1..], f);
      RegionFramesExact(r, f);
    }
  }

  lemma {:induction false} UsableFramesDistinct(regions: seq<Region>)
    requires GoodRegions(regions)
    ensures NoDup(UsableFrames(regions))
  {
    if regions != [] {
      UsableFramesDistinct(regions[1..]);
      RegionFramesExact(regions[0], 0);
      forall f | f in RegionFrames(regions[0]) ensures f !in UsableFrames(regions[1..]) {
        RegionFramesExact(regions[0], f);
        NotInLater(regions, f);
      }
      NoDupAppend(RegionFrames(regions[0]), UsableFrames(regions[1..]));
    }
  }

  /** A frame of the first region belongs to no later one. */
  lemma NotInLater(regions: seq<Region>, f: nat)
    requires GoodRegions(regions) && regions != [] && Holds(regions[0], f)
    ensures f !in UsableFrames(regions[1..])
  {
    UsableFramesExact(regions[1..], f);
    forall r | r in regions[1..] ensures !Holds(r, f) {
      var j :| 0 <= j < |regions[1..]| && regions[1..][j] == r;
      assert regions[j + 1] == r;
    }
  }

  lemma NoDupAppend(a: seq<nat>, b: seq<nat>)
    requires NoDup(a) && NoDup(b) && forall x :: x in a ==> x !in b
    ensures NoDup(a + b)
  {
    forall i, j | 0 <= i < j < |a + b| ensures (a + b)[i] != (a + b)[j] {
      if i < |a| <= j { assert a[i] in a && b[j - |a|] in b; }
    }
  }

  // ---- Runs -----------------------------------------------------------------------------------

  datatype World = World(alloc: Allocator, out: multiset<nat>)

  datatype Event = TakeFrame | GiveFrame(frame: nat)

  /** Only outstanding frames are given back. */
  predicate Allowed(w: World, e: Event) {
    e.GiveFrame? ==> e.frame in w.out
  }

  /** None is a panic. */
  function Step(w: World, e: Event): (r: Option<World>)
  {
    match e
    case TakeFrame =>
      var (f, a) := Take(w.alloc);
      Some(World(a, if f.Some? then w.out + multiset{f.value} else w.out))
    case GiveFrame(frame) =>
      match Give(w.alloc, frame)
      case None => None
      case Some(a) => Some(World(a, w.out - multiset{frame}))
  }

  function Gives(es: seq<Event>): (n: nat)
  {
    if es == [] then 0 else Gives(es[..|es| - 1]) + (if es[|es| - 1].GiveFrame? then 1 else 0)
  }

  function Run(w: World, es: seq<Event>): (r: Option<World>)
  {
    if es == [] then Some(w)
    else
      match Run(w, es[..|es| - 1])
      case None => None
      case Some(v) => Step(v, es[|es| - 1])
  }

  /** The run has not panicked, and has given back only what was out. */
  ghost predicate Legal(w: World, es: seq<Event>) {
    es == [] || (Legal(w, es[..|es| - 1]) && Run(w, es).Some?
                 && Allowed(Run(w, es[..|es| - 1]).value, es[|es| - 1]))
  }

  /** `init`: the boxed iterator has taken `boxed` bytes of the node array. */
  ghost predicate Booted(w: World, regions: seq<Region>, boxed: nat) {
    && StackValid(w.alloc.stack) && w.alloc.stack.current == boxed
    && w.alloc.free == 0 && w.alloc.rest == UsableFrames(regions)
    && (forall f :: f in w.alloc.rest ==> f < Pow256(WORD))
    && w.out == multiset{}
  }

  ghost predicate Conserved(w: World, frames: seq<nat>) {
    Valid(w.alloc) && multiset(Available(w.alloc)) + w.out == multiset(frames)
  }

  lemma StepConserves(w: World, frames: seq<nat>, e: Event)
    requires Conserved(w, frames) && Allowed(w, e) && Step(w, e).Some?
    requires forall f :: f in frames ==> f < Pow256(WORD)
    ensures var w' := Step(w, e).value;
            && Conserved(w', frames)
            && w'.alloc.stack.current == w.alloc.stack.current + (if e.GiveFrame? then NODE else 0)
            && |w'.alloc.stack.mem| == |w.alloc.stack.mem|
  {
    match e
    case TakeFrame =>
      TakeFirst(w.alloc);
    case GiveFrame(frame) =>
      OutIsUsable(w, frames, frame);
      GiveFront(w.alloc, frame);
  }

  lemma OutIsUsable(w: World, frames: seq<nat>, f: nat)
    requires Conserved(w, frames) && f in w.out
    ensures f in frames
  {
    assert f in multiset(Available(w.alloc)) + w.out;
  }

  /** Conservation: over every run, the outstanding frames together with the free list and the frames not
      yet walked are exactly the usable frames, each once; and the node array has grown by one node per
      frame ever given back. */
  lemma {:induction false} RunConserves(w: World, regions: seq<Region>, boxed: nat, es: seq<Event>)
    requires Booted(w, regions, boxed) && Legal(w, es)
    ensures var w' := Run(w, es).value;
            && Conserved(w', UsableFrames(regions))
            && w'.alloc.stack.current == boxed + NODE * Gives(es)
            && |w'.alloc.stack.mem| == |w.alloc.stack.mem|
  {
    if es == [] {
      assert Available(w.alloc) == w.alloc.rest;
    } else {
      var v := Run(w, es[..|es| - 1]).value;
      RunConserves(w, regions, boxed, es[..|es| - 1]);
      StepConserves(v, UsableFrames(regions), es[|es| - 1]);
      assert Run(w, es) == Step(v, es[|es| - 1]);
    }
  }

  lemma {:induction false} NoDupCount(s: seq<nat>, f: nat)
    requires NoDup(s)
    ensures multiset(s)[f] <= 1
  {
    if s != [] {
      NoDupCount(s[1..], f);
      assert s == [s[0]] + s[1..];
      assert s[0] !in s[1..];
    }
  }

  /** No frame is handed out while it is outstanding, only usable frames are handed out, and the allocator
      runs dry exactly when every usable frame is out. */
  lemma NeverTwice(w: World, regions: seq<Region>, boxed: nat, es: seq<Event>)
    requires GoodRegions(regions) && Booted(w, regions, boxed) && Legal(w, es)
    ensures var w' := Run(w, es).value;
            var r := Take(w'.alloc).0;
            && (r.Some? ==> r.value in UsableFrames(regions) && r.value !in w'.out)
            && (r == None <==> w'.out == multiset(UsableFrames(regions)))
  {
    var w' := Run(w, es).value;
    var frames := UsableFrames(regions);
    RunConserves(w, regions, boxed, es);
    UsableFramesDistinct(regions);
    TakeFirst(w'.alloc);
    var r := Take(w'.alloc).0;
    if r.Some? {
      var f := r.value;
      NoDupCount(frames, f);
      assert f in Available(w'.alloc);
      assert multiset(frames)[f] == multiset(Available(w'.alloc))[f] + w'.out[f];
    }
  }

  /** Over the whole life of the kernel only so many frames can be given back: nodes are never reclaimed. */
  lemma GivePanicsIff(w: World, regions: seq<Region>, boxed: nat, es: seq<Event>, frame: nat)
    requires Booted(w, regions, boxed) && Legal(w, es) && frame in Run(w, es).value.out
    ensures Step(Run(w, es).value, GiveFrame(frame)) == None
            <==> boxed + NODE * (Gives(es) + 1) >= |w.alloc.stack.mem|
  {
    RunConserves(w, regions, boxed, es);
    OutIsUsable(Run(w, es).value, UsableFrames(regions), frame);
    GiveFront(Run(w, es).value.alloc, frame);
  }

  // ---- The nodes ------------------------------------------------------------------------------

  /** The list nodes handed out by the node array along a run, in order. */
  function Nodes(w: World, es: seq<Event>): (ps: seq<nat>)
  {
    if es == [] then []
    else
      Nodes(w, es[..|es| - 1])
      + if es[|es| - 1].GiveFrame? && Run(w, es).Some? then [Run(w, es).value.alloc.free] else []
  }

  lemma {:induction false} RunBase(w: World, es: seq<Event>)
    requires Run(w, es).Some?
    ensures Run(w, es).value.alloc.stack.base == w.alloc.stack.base
  {
    if es != [] { RunBase(w, es[..|es| - 1]); }
  }

  /** Over every run there is one node per frame given back, one after the other from where the boxed iterator ends, all
      inside the array; none is ever handed out twice or overlaps another. */
  lemma {:induction false} NodesAre(w: World, regions: seq<Region>, boxed: nat, es: seq<Event>)
    requires Booted(w, regions, boxed) && Legal(w, es)
    ensures var (ps, st) := (Nodes(w, es), w.alloc.stack);
            && |ps| == Gives(es)
            && (forall j :: 0 <= j < |ps| ==> ps[j] == st.base + boxed + NODE * j && ps[j] + NODE <= st.base + |st.mem|)
            && (forall i, j :: 0 <= i < j < |ps| ==> ps[i] + NODE <= ps[j])
  {
    if es != [] {
      var es' := es[..|es| - 1];
      NodesAre(w, regions, boxed, es');
      RunConserves(w, regions, boxed, es');
      RunBase(w, es');
    }
  }

  /** `own` hands out its bytes without looking at the alignment asked for: once a frame has been given back, the
      nodes of the run are aligned for the pointers in them exactly if the first one is, which is known at boot. */
  lemma NodesAlignedIff(w: World, regions: seq<Region>, boxed: nat, es: seq<Event>)
    requires Booted(w, regions, boxed) && Legal(w, es) && Gives(es) > 0
    ensures NodesAligned(w, es) <==> FirstNode(w, boxed) % WORD == 0
  {
    NodesInStep(w, regions, boxed, es, Nodes(w, es), FirstNode(w, boxed));
  }

  /** Where the boxed iterator ends. */
  function FirstNode(w: World, boxed: nat): (p: nat) { w.alloc.stack.base + boxed }

  /** Every node of the run is aligned for a pointer. */
  ghost predicate NodesAligned(w: World, es: seq<Event>) { WordAligned(Nodes(w, es)) }

  ghost predicate WordAligned(ps: seq<nat>) { forall p :: p in ps ==> p % WORD == 0 }

  lemma NodesInStep(w: World, regions: seq<Region>, boxed: nat, es: seq<Event>, ps: seq<nat>, first: nat)
    requires Booted(w, regions, boxed) && Legal(w, es) && Gives(es) > 0
    requires ps == Nodes(w, es) && first == w.alloc.stack.base + boxed
    ensures NodesAligned(w, es) <==> first % WORD == 0
  {
    NodesAre(w, regions, boxed, es);
    InStep(ps, first);
  }

  lemma InStep(ps: seq<nat>, first: nat)
    requires ps != [] && forall j :: 0 <= j < |ps| ==> ps[j] == first + NODE * j
    ensures WordAligned(ps) <==> first % WORD == 0
  {
    forall j | 0 <= j < |ps| ensures ps[j] % WORD == first % WORD {
      DivModUnique(ps[j], WORD, first / WORD + 2 * j, first % WORD);
    }
    assert ps[0] in ps;
  }
}
