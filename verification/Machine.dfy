/** One core, its page table and physical memory, updated in place by the fault handler and by accesses. */
module Machine {
  import opened Bytes
  import opened Wrappers
  import Frames
  import opened FrameAllocator
  import opened Paging
  import opened Mapping

  class Machine {
    const frames: BootInfoFrameAllocator
    var pages: map<nat, nat>
    var tables: map<(nat, nat), nat>
    var phys: map<nat, seq<byte>>

    ghost function View(): (u: Mmu)
      reads this, frames, frames.stack
    {
      Mmu(pages, tables, phys, Frames.Available(frames.View()))
    }

    ghost predicate Ok()
      reads this, frames, frames.stack
    {
      frames.Wf()
    }

    constructor (frames: BootInfoFrameAllocator, pages: map<nat, nat>, phys: map<nat, seq<byte>>)
      requires frames.Wf()
      ensures Ok() && View() == Mmu(pages, map[], phys, Frames.Available(frames.View()))
      ensures this.frames == frames
    {
      this.frames, this.pages, this.tables, this.phys := frames, pages, map[], phys;
    }

    /** `allocate_frame` as the rest of the machine sees it: it pops the pool. */
    method TakeFrame() returns (r: Option<nat>)
      requires Ok()
      modifies frames
      ensures Ok()
      ensures old(View()).pool == [] ==> r == None && View() == old(View())
      ensures old(View()).pool != [] ==>
                r == Some(old(View()).pool[0]) && View() == old(View()).(pool := old(View()).pool[1..])
    {
      Frames.TakeFirst(frames.View());
      r := frames.AllocateFrame();
    }

    /** False stands for the panic of the caller's `unwrap`. */
    method MapTo(page: nat, frame: nat) returns (ok: bool)
      requires Ok()
      modifies this, frames
      ensures Ok()
      ensures Paging.MapTo(old(View()), page, frame) == if ok then Some(View()) else None
    {
      var level := 3;
      while level > 0
        invariant 0 <= level <= 3 && Ok()
        invariant EnsureTables(View(), level, page) == EnsureTables(old(View()), 3, page)
      {
        var key := (level, TableIndex(level, page));
        if key !in tables {
          var f := TakeFrame();
          if f == None { return false; }
          phys := phys[f.value := ZeroPage()];
          tables := tables[key := f.value];
        }
        level := level - 1;
      }
      if page in pages { return false; }
      pages := pages[page := frame];
      ok := true;
    }

    /** `lazy_map`: Some(b) is its return value, None a panic. */
    method LazyMap(address: nat) returns (r: Option<bool>)
      requires Ok()
      modifies this, frames
      ensures Ok()
      ensures match Paging.LazyMap(old(View()), address)
              case Declined => r == Some(false) && View() == old(View())
              case Panicked => r == None
              case Handled(v) => r == Some(true) && View() == v
    {
      if address < MANAGED_START || address >= MANAGED_END { return Some(false); }
      if address / Frames.PAGE in pages { return Some(false); }
      var frame := TakeFrame();
      if frame == None { return None; }
      var ok := MapTo(address / Frames.PAGE, frame.value);
      if !ok { return None; }
      phys := phys[frame.value := ZeroPage()];
      r := Some(true);
    }

    /** Before an access: fault in its pages one after the other; false is a kernel panic. */
    method TouchRange(a: nat, n: nat) returns (ok: bool)
      requires Ok()
      modifies this, frames
      ensures Ok()
      ensures Paging.TouchRange(old(View()), a, n) == if ok then Some(View()) else None
    {
      ghost var goal := Paging.TouchRange(View(), a, n);
      var b: nat, left: nat := a, n;
      while left > 0
        invariant Ok() && Paging.TouchRange(View(), b, left) == goal
      {
        ok := TouchPage(b);
        if !ok { return false; }
        var k := Frames.PAGE - b % Frames.PAGE;
        if left <= k { return true; }
        b, left := b + k, left - k;
      }
      ok := true;
    }

    /** The page fault handler, if the page is not there. */
    method TouchPage(a: nat) returns (ok: bool)
      requires Ok()
      modifies this, frames
      ensures Ok()
      ensures Touch(old(View()), a) == if ok then Some(View()) else None
    {
      if a / Frames.PAGE in pages { return true; }
      var handled := LazyMap(a);
      ok := handled == Some(true);
    }

    /** A load of any length; None is a kernel panic. */
    method Read(a: nat, n: nat) returns (r: Option<seq<byte>>)
      requires Ok()
      modifies this, frames
      ensures Ok()
      ensures Do(old(View()), Access.Read(a, n)) == if r.Some? then Some((r.value, View())) else None
    {
      var ok := TouchRange(a, n);
      if !ok { return None; }
      var bs: seq<byte> := [];
      for i := 0 to n
        invariant bs == Peek(View(), a, i)
      {
        bs := bs + [ByteAt(pages, phys, a + i)];
      }
      r := Some(bs);
    }

    /** A store of any length; false is a kernel panic. */
    method Write(a: nat, bs: seq<byte>) returns (ok: bool)
      requires Ok()
      modifies this, frames
      ensures Ok()
      ensures Do(old(View()), Access.Write(a, bs)) == if ok then Some(([], View())) else None
    {
      ok := TouchRange(a, |bs|);
      if !ok { return; }
      ghost var goal := Poke(View(), a, bs);
      for i := 0 to |bs|
        invariant Ok() && Poke(View(), a + i, bs[i..]) == goal
      {
        phys := ByteSet(pages, phys, a + i, bs[i]);
        assert bs[i..][1..] == bs[i + 1..];
      }
    }

    /** One turn of the `map_to` loop, with `n` pages left: the outcome of the whole is that of the rest. */
    method MapNext(page: nat, frame: nat, ghost n: nat) returns (ok: bool)
      requires Ok() && n > 0
      modifies this, frames
      ensures Ok()
      ensures MapRange(old(View()), page, frame, n) == if ok then MapRange(View(), page + 1, frame + 1, n - 1) else None
    {
      MapRangeStep(View(), page, frame, n);
      ok := MapTo(page, frame);
    }

    /** The `map_to` loop of `map_pages_from`; false is a panic. */
    method MapRun(page: nat, frame: nat, n: nat) returns (ok: bool)
      requires Ok()
      modifies this, frames
      ensures Ok()
      ensures MapRange(old(View()), page, frame, n) == if ok then Some(View()) else None
    {
      ghost var goal := MapRange(View(), page, frame, n);
      var p, f, left := page, frame, n;
      while left > 0
        invariant Ok() && MapRange(View(), p, f, left) == goal
      {
        var done := MapNext(p, f, left);
        if !done { return false; }
        p, f, left := p + 1, f + 1, left - 1;
      }
      ok := true;
    }

    /** `map_pages_from`; None is a panic. */
    method MapPagesFrom(start: nat, size: nat, lo: nat, hi: nat) returns (virt: Option<nat>)
      requires Ok()
      modifies this, frames
      ensures Ok()
      ensures Mapping.MapPagesFrom(old(View()), start, size, lo, hi)
              == if virt.Some? then Some((virt.value, View())) else None
    {
      ghost var goal := Mapping.MapPagesFrom(View(), start, size, lo, hi);
      var n := PageCount(start, size);
      var page := SearchFree(pages.Keys, n, lo, hi);
      if page == None {
        assert goal == None;
        return None;
      }
      var ok := MapRun(page.value, start / Frames.PAGE, n);
      if !ok {
        assert goal == None;
        return None;
      }
      virt := Some(page.value * Frames.PAGE + start % Frames.PAGE);
    }
  }
}
