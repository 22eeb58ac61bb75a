/** The allocator's objects, updated in place. */
module Heap {
  import opened Bytes
  import opened Wrappers
  import Slab
  import A = Allocator
  import HeapOnPages
  import opened AllocatorOnPages
  import opened Machine

  /** The link of a cell, read and cleared. */
  method TakeLink(m: Machine, a: nat) returns (r: Option<nat>)
    requires m.Ok()
    modifies m, m.frames
    ensures m.Ok()
    ensures HeapOnPages.TakeLink(old(m.View()), a) == if r.Some? then Some((r.value, m.View())) else None
  {
    var bytes := m.Read(a, WORD);
    if bytes == None { return None; }
    var ok := m.Write(a, Encode(0, WORD));
    r := if ok then Some(Decode(bytes.value)) else None;
  }

  /** One slab working on demand-paged memory. */
  class SlabAllocator {
    var start: nat
    var end: nat
    var next: nat
    const size: nat
    var used: int

    ghost function View(): (s: Slab.Slab)
      reads this
    {
      Slab.Slab(start, end, next, size, used)
    }

    constructor (size: nat)
      ensures View() == Slab.Slab(0, 0, 0, size, 0)
    {
      start, end, next, used := 0, 0, 0, 0;
      this.size := size;
    }

    /** The assertion looks at the old `start`. */
    method Init(start: nat, length: nat)
      requires size > 0 && this.start % size == 0
      modifies this
      ensures View() == old(View()).(start := start, end := start + length, next := start)
    {
      this.start := start;
      this.end := start + length;
      this.next := start;
    }

    /** None is a kernel panic; Some(0) is null. What this does to the memory is `HeapOnPages.AllocRefines`, and when it
        panics is `HeapOnPages.AllocPanicsIff`. */
    method Alloc(m: Machine, request: nat) returns (r: Option<nat>)
      requires m.Ok()
      modifies this, m, m.frames
      ensures m.Ok()
      ensures HeapOnPages.Alloc(old(View()), old(m.View()), request)
              == if r.Some? then Some((r.value, View(), m.View())) else None
    {
      if next >= end { return Some(0); }
      var cell := next;
      var cellNext := TakeLink(m, cell);
      if cellNext == None { return None; }
      Advance(cellNext.value, request);
      r := Some(cell);
    }

    /** `next` follows the link of the cell handed out. */
    method Advance(link: nat, request: nat)
      modifies this
      ensures View() == var s := old(View());
                        s.(next := if link == 0 then s.next + s.size else link, used := s.used + request)
    {
      next := if link == 0 then next + size else link;
      used := used + request;
    }

    /** False is a kernel panic. */
    method Dealloc(m: Machine, ptr: nat, request: nat) returns (ok: bool)
      requires m.Ok()
      modifies this, m, m.frames
      ensures m.Ok()
      ensures HeapOnPages.Dealloc(old(View()), old(m.View()), ptr, request)
              == if ok then Some((View(), m.View())) else None
    {
      ok := m.Write(ptr, Encode(next, WORD));
      if !ok { return; }
      next := ptr;
      used := used - request;
    }
  }

  lemma SlabsAre(slabs: seq<Slab.Slab>, start: nat, size: nat)
    requires |slabs| == A.SLABS
    requires forall k :: 0 <= k < A.SLABS ==> slabs[k] == A.InitSlab(start + size / 8 * k, size / 8, k)
    ensures slabs == A.Init(start, size, []).slabs
  {
  }

  /** The seven slabs and the bounds of the fallback heap, on the demand-paged machine. */
  class GlobalAllocator {
    const machine: Machine
    const slabs: seq<SlabAllocator>
    var heapLo: nat
    var heapHi: nat

    /** The slabs are seven different objects, of the right cell sizes. */
    ghost predicate Valid()
      reads slabs, machine, machine.frames, machine.frames.stack
    {
      && |slabs| == A.SLABS && machine.Ok()
      && (forall i, j :: 0 <= i < j < A.SLABS ==> slabs[i] != slabs[j])
      && (forall i :: 0 <= i < A.SLABS ==> slabs[i].size == A.SIZES[i])
    }

    ghost function Slabs(): (s: seq<Slab.Slab>)
      reads slabs
      requires |slabs| == A.SLABS
    {
      seq(A.SLABS, i requires 0 <= i < A.SLABS reads slabs => slabs[i].View())
    }

    ghost function View(live: map<nat, A.Layout>): (w: World)
      reads this, slabs, machine, machine.frames, machine.frames.stack
      requires |slabs| == A.SLABS
    {
      World(Slabs(), machine.View(), heapLo, heapHi, live)
    }

    constructor (machine: Machine)
      requires machine.Ok()
      ensures Valid() && fresh(slabs) && this.machine == machine
      ensures forall i :: 0 <= i < A.SLABS ==> slabs[i].View() == Slab.Slab(0, 0, 0, A.SIZES[i], 0)
    {
      this.machine := machine;
      var made: seq<SlabAllocator> := [];
      for i := 0 to A.SLABS
        invariant |made| == i && fresh(made)
        invariant forall k :: 0 <= k < i ==> made[k].View() == Slab.Slab(0, 0, 0, A.SIZES[k], 0)
        invariant forall j, k :: 0 <= j < k < i ==> made[j] != made[k]
      {
        var slab := new SlabAllocator(A.SIZES[i]);
        made := made + [slab];
      }
      slabs := made;
      heapLo, heapHi := 0, 0;
    }

    /** The loop of `init`: consecutive regions, one for each slab. */
    method InitSlabs(start: nat, region: nat)
      requires Valid() && forall i :: 0 <= i < A.SLABS ==> slabs[i].start == 0 && slabs[i].used == 0
      modifies slabs
      ensures Valid() && forall k :: 0 <= k < A.SLABS ==> slabs[k].View() == A.InitSlab(start + region * k, region, k)
    {
      for i := 0 to |slabs|
        invariant Valid()
        invariant forall k :: i <= k < A.SLABS ==> slabs[k].start == 0 && slabs[k].used == 0
        invariant forall k :: 0 <= k < i ==> slabs[k].View() == A.InitSlab(start + region * k, region, k)
      {
        slabs[i].Init(start + region * i, region);
      }
    }

    /** `init`; `header` is what the fallback heap's own `init` stores. False is a kernel panic. */
    method Init(start: nat, size: nat, header: seq<(nat, byte)>) returns (ok: bool)
      requires Valid() && forall i :: 0 <= i < A.SLABS ==> slabs[i].start == 0 && slabs[i].used == 0
      modifies this, slabs, machine, machine.frames
      ensures Valid()
      ensures var w := A.Init(start, size, []);
              match AllocatorOnPages.StoreAll(old(machine.View()), header)
              case None => !ok
              case Some(u) => ok && View(map[]) == World(w.slabs, u, w.heapLo, w.heapHi, map[])
    {
      var region := size / (|slabs| + 1);
      InitSlabs(start, region);
      heapLo := start + region * |slabs|;
      heapHi := heapLo + region;
      ok := StoreAll(header);
      SlabsAre(Slabs(), start, size);
    }

    /** `Inner::slab`: an index below SLABS, or SLABS for none. */
    method SlabFor(layout: A.Layout) returns (i: nat)
      requires Valid()
      ensures i == A.Class(layout)
      ensures i < |slabs| ==> layout.size <= slabs[i].size && layout.align <= slabs[i].size
      ensures forall j :: 0 <= j < i ==> slabs[j].size < layout.size || slabs[j].size < layout.align
      ensures i == |slabs| <==> layout.size > 2048 || layout.align > 2048
    {
      A.FirstFit(layout);
      i := 0;
      while i < |slabs| && slabs[i].size < A.Needed(layout)
        invariant i <= A.SLABS && A.Class(layout, i) == A.Class(layout)
      {
        i := i + 1;
      }
    }

    /** What the fallback heap does to memory; false is a kernel panic. */
    method StoreAll(stores: seq<(nat, byte)>) returns (ok: bool)
      requires machine.Ok()
      modifies machine, machine.frames
      ensures machine.Ok()
      ensures AllocatorOnPages.StoreAll(old(machine.View()), stores) == if ok then Some(machine.View()) else None
    {
      ghost var goal := AllocatorOnPages.StoreAll(machine.View(), stores);
      for i := 0 to |stores|
        invariant machine.Ok() && AllocatorOnPages.StoreAll(machine.View(), stores[i..]) == goal
      {
        assert stores[i..][1..] == stores[i + 1..];
        ok := machine.Write(stores[i].0, [stores[i].1]);
        if !ok { return; }
      }
      ok := true;
    }

    /** `answer` and `stores` are what the fallback heap does, should it be asked. None is a kernel panic. */
    method Alloc(layout: A.Layout, answer: nat, stores: seq<(nat, byte)>, ghost live: map<nat, A.Layout>)
      returns (r: Option<nat>)
      requires Valid()
      modifies slabs, machine, machine.frames
      ensures Valid()
      ensures AllocatorOnPages.Step(old(View(live)), Request(layout, answer, stores))
              == if r.Some? then Some(View(if r.value == 0 then live else live[r.value := layout])) else None
    {
      var i := SlabFor(layout);
      if i < |slabs| {
        r := slabs[i].Alloc(machine, layout.size);
        assert Slabs() == old(Slabs())[i := slabs[i].View()];
      } else {
        var ok := StoreAll(stores);
        r := if ok then Some(answer) else None;
        assert Slabs() == old(Slabs());
      }
    }

    /** False is a kernel panic. Of null pointers only those the fallback heap would be asked about are let through. */
    method Dealloc(ptr: nat, layout: A.Layout, stores: seq<(nat, byte)>, ghost live: map<nat, A.Layout>)
      returns (ok: bool)
      requires Valid() && 0 !in live
      requires if ptr == 0 then A.Class(layout) == A.SLABS else ptr in live && live[ptr] == layout
      modifies slabs, machine, machine.frames
      ensures Valid()
      ensures ptr == 0 ==> ok && View(live) == old(View(live))
      ensures ptr != 0 ==>
                AllocatorOnPages.Step(old(View(live)), Release(ptr, stores))
                == if ok then Some(View(live - {ptr})) else None
    {
      var i := SlabFor(layout);
      if i < |slabs| {
        ok := slabs[i].Dealloc(machine, ptr, layout.size);
        assert Slabs() == old(Slabs())[i := slabs[i].View()];
      } else {
        if ptr == 0 { return true; }
        ok := StoreAll(stores);
        assert Slabs() == old(Slabs());
      }
    }
  }
}
