/** The frame allocator's two objects, updated in place as the kernel does it. */
module FrameAllocator {
  import opened Bytes
  import opened Wrappers
  import opened Frames

  class StackAllocator {
    const base: nat
    var memory: seq<byte>
    var current: nat

    ghost function View(): (st: Stack)
      reads this
    {
      Stack(base, memory, current)
    }

    constructor (base: nat, capacity: nat)
      requires 0 < base && base + capacity < Pow256(WORD)
      ensures StackValid(View()) && current == 0 && this.base == base && |memory| == capacity
    {
      this.base := base;
      memory := seq(capacity, _ => 0);
      current := 0;
    }

    method Allocate(size: nat) returns (r: Option<nat>)
      modifies this
      ensures memory == old(memory)
      ensures match Bump(old(View()), size)
              case None => r == None && View() == old(View())
              case Some((p, st)) => r == Some(p) && View() == st
    {
      if current + size >= |memory| { return None; }
      r := Some(base + current);
      current := current + size;
    }

    /** One word of `ptr::write`. */
    method Write(offset: nat, value: nat)
      modifies this
      ensures View() == old(View()).(mem := Store(old(memory), offset, value))
    {
      memory := Store(memory, offset, value);
    }
  }

  /** What the boxed iterator has still to yield: the rest of the current region, then the later ones. */
  ghost function RestOf(regions: seq<Region>, region: nat, cursor: nat): (frames: seq<nat>)
  {
    if region >= |regions| then []
    else (if regions[region].usable then StepFrames(cursor, regions[region].base + regions[region].len) else [])
         + UsableFrames(regions[region + 1..])
  }

  /** An exhausted or unusable region yields nothing: the walk goes on with the next one. */
  lemma RestSkip(regions: seq<Region>, region: nat, cursor: nat)
    requires region < |regions|
    requires !(regions[region].usable && cursor < regions[region].base + regions[region].len)
    ensures RestOf(regions, region, cursor)
            == RestOf(regions, region + 1, if region + 1 < |regions| then regions[region + 1].base else cursor)
  {
    var later := regions[region + 1..];
    assert RestOf(regions, region, cursor) == UsableFrames(later);
    if later != [] {
      calc {
        UsableFrames(later);
        RegionFrames(later[0]) + UsableFrames(later[1..]);
        { assert later[0] == regions[region + 1] && later[1..] == regions[region + 2..]; }
        RegionFrames(regions[region + 1]) + UsableFrames(regions[region + 2..]);
        RestOf(regions, region + 1, regions[region + 1].base);
      }
    }
  }

  lemma RestStep(regions: seq<Region>, region: nat, cursor: nat)
    requires region < |regions|
    requires regions[region].usable && cursor < regions[region].base + regions[region].len
    ensures var rest := RestOf(regions, region, cursor);
            rest != [] && rest[0] == cursor / PAGE && rest[1..] == RestOf(regions, region, cursor + PAGE)
  {
    assert RestOf(regions, region, cursor) == [cursor / PAGE] + RestOf(regions, region, cursor + PAGE);
  }

  lemma RestDone(regions: seq<Region>, region: nat, cursor: nat)
    requires region >= |regions|
    ensures RestOf(regions, region, cursor) == []
  {
  }

  class BootInfoFrameAllocator {
    const stack: StackAllocator
    const regions: seq<Region>
    var region: nat
    var cursor: nat
    var freeFrames: nat

    ghost function Rest(): (frames: seq<nat>)
      reads this
    {
      RestOf(regions, region, cursor)
    }

    ghost predicate Wf()
      reads this, stack
    {
      Valid(View())
    }

    ghost function View(): (a: Allocator)
      reads this, stack
    {
      Allocator(stack.View(), freeFrames, Rest())
    }

    /** `init`: the iterator is boxed in the node array, which has to have `boxed` bytes for it. */
    constructor (stack: StackAllocator, regions: seq<Region>, boxed: nat)
      requires StackValid(stack.View()) && stack.current + boxed < |stack.memory|
      modifies stack
      ensures Wf() && this.stack == stack && this.regions == regions
      ensures stack.View() == old(stack.View()).(current := old(stack.current) + boxed)
      ensures View() == Allocator(stack.View(), 0, UsableFrames(regions))
    {
      this.stack := stack;
      this.regions := regions;
      region := 0;
      cursor := if regions == [] then 0 else regions[0].base;
      freeFrames := 0;
      new;
      var iterator_ := stack.Allocate(boxed);
      if regions != [] { assert UsableFrames(regions) == Rest(); }
    }

    /** Go on to the next region that still has an address. */
    method Skip()
      modifies this`region, this`cursor
      ensures Rest() == old(Rest())
      ensures region < |regions| ==> regions[region].usable && cursor < regions[region].base + regions[region].len
    {
      while region < |regions| && !(regions[region].usable && cursor < regions[region].base + regions[region].len)
        invariant Rest() == old(Rest())
        decreases |regions| - region
      {
        RestSkip(regions, region, cursor);
        region := region + 1;
        if region < |regions| { cursor := regions[region].base; }
      }
    }

    /** `iter.next()`: skip to the next region that still has an address, and step over it. */
    method NextFrame() returns (r: Option<nat>)
      modifies this`region, this`cursor
      ensures old(Rest()) == [] ==> r == None && Rest() == []
      ensures old(Rest()) != [] ==> r == Some(old(Rest())[0]) && Rest() == old(Rest())[1..]
    {
      Skip();
      if region >= |regions| {
        RestDone(regions, region, cursor);
        return None;
      }
      RestStep(regions, region, cursor);
      r := Some(cursor / PAGE);
      cursor := cursor + PAGE;
    }

    method AllocateFrame() returns (r: Option<nat>)
      requires Wf()
      modifies this
      ensures Wf() && (r, View()) == Take(old(View()))
    {
      ghost var before := View();
      TakeFirst(before);
      if freeFrames != 0 {
        var offset := freeFrames - stack.base;
        r := Some(Load(stack.memory, offset));
        freeFrames := Load(stack.memory, offset + WORD);
      } else {
        r := NextFrame();
      }
    }

    /** False is the panic of the failed `unwrap` in `own`. */
    method DeallocateFrame(frame: nat) returns (ok: bool)
      requires Wf() && frame < Pow256(WORD)
      modifies this, stack
      ensures match Give(old(View()), frame)
              case None => !ok
              case Some(a) => ok && Wf() && View() == a
    {
      ghost var before := View();
      var next := freeFrames;
      var p := stack.Allocate(NODE);
      if p == None { return false; }
      stack.Write(p.value - stack.base, frame);
      stack.Write(p.value - stack.base + WORD, next);
      freeFrames := p.value;
      ok := true;
      assert Give(before, frame) == Some(View());
      GiveFront(before, frame);
    }
  }
}
