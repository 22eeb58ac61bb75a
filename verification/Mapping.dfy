/** Mapping a physical range into the first large enough hole of a virtual region. */
module Mapping {
  import opened Wrappers
  import opened Frames
  import opened Paging
  import opened FrameBudget

  /** `available`: not mapped, and not the null page. */
  predicate Free(mapped: set<nat>, page: nat) { page !in mapped && page != 0 }

  predicate RunAt(mapped: set<nat>, s: nat, n: nat) { forall i: nat | s <= i < s + n :: Free(mapped, i) }

  /** The search counts before it compares, so asking for nothing still asks for one page. */
  function Need(n: nat): (m: nat) { if n == 0 then 1 else n }

  /** The leftmost run, by definition. */
  function FirstRun(mapped: set<nat>, n: nat, lo: nat, hi: nat): (r: Option<nat>)
    ensures r.Some? ==> lo <= r.value && r.value + Need(n) <= hi && RunAt(mapped, r.value, Need(n))
    ensures r.Some? ==> forall s :: lo <= s < r.value ==> !RunAt(mapped, s, Need(n))
    ensures r == None ==> forall s :: lo <= s && s + Need(n) <= hi ==> !RunAt(mapped, s, Need(n))
    decreases if lo <= hi then hi - lo else 0
  {
    if lo + Need(n) > hi then None
    else if RunAt(mapped, lo, Need(n)) then Some(lo)
    else FirstRun(mapped, n, lo + 1, hi)
  }

  /** `search_free_addr_from`: one pass, restarting the count at every page in the way. */
  method SearchFree(mapped: set<nat>, n: nat, lo: nat, hi: nat) returns (r: Option<nat>)
    ensures r == FirstRun(mapped, n, lo, hi)
  {
    var cnt, start := 0, None;
    var page := lo;
    while page < hi
      invariant lo <= page && (page <= hi || page == lo)
      invariant cnt < Need(n) && cnt <= page - lo && RunAt(mapped, page - cnt, cnt)
      invariant start == if cnt == 0 then None else Some(page - cnt)
      invariant forall s :: lo <= s < page - cnt ==> !RunAt(mapped, s, Need(n))
    {
      if Free(mapped, page) {
        if start == None { start := Some(page); }
        cnt := cnt + 1;
        if cnt >= n {
          assert RunAt(mapped, start.value, Need(n));
          return start;
        }
      } else {
        assert forall s: nat :: page - cnt <= s <= page && RunAt(mapped, s, Need(n)) ==> Free(mapped, page);
        cnt, start := 0, None;
      }
      page := page + 1;
    }
    r := None;
  }

  // ---- Mapping the hole -----------------------------------------------------------------------

  /** The `map_to` loop of `map_pages_from`. */
  function MapRange(u: Mmu, page: nat, frame: nat, n: nat): (r: Option<Mmu>)
    decreases n
  {
    if n == 0 then Some(u)
    else
      match MapTo(u, page, frame)
      case None => None
      case Some(v) => MapRange(v, page + 1, frame + 1, n - 1)
  }

  lemma MapRangeStep(u: Mmu, page: nat, frame: nat, n: nat)
    requires n > 0
    ensures MapTo(u, page, frame) == None ==> MapRange(u, page, frame, n) == None
    ensures MapTo(u, page, frame).Some? ==>
              MapRange(u, page, frame, n) == MapRange(MapTo(u, page, frame).value, page + 1, frame + 1, n - 1)
  {
  }

  function PageCount(start: nat, size: nat): (n: nat)
  {
    var first := start / PAGE * PAGE;
    var last := (start + size) / PAGE * PAGE;
    (last - first + 1 + PAGE - 1) / PAGE
  }

  /** `map_pages_from`: the virtual address of `start`; None is a panic. */
  function MapPagesFrom(u: Mmu, start: nat, size: nat, lo: nat, hi: nat): (r: Option<(nat, Mmu)>)
  {
    match FirstRun(u.pages.Keys, PageCount(start, size), lo, hi)
    case None => None
    case Some(virt) =>
      match MapRange(u, virt, start / PAGE, PageCount(start, size))
      case None => None
      case Some(v) => Some((virt * PAGE + start % PAGE, v))
  }

  function Translate(u: Mmu, a: nat): (r: Option<nat>)
  {
    if a / PAGE in u.pages then Some(u.pages[a / PAGE] * PAGE + a % PAGE) else None
  }

  lemma MapToPages(u: Mmu, page: nat, frame: nat)
    ensures MapTo(u, page, frame).Some? ==>
              page !in u.pages && MapTo(u, page, frame).value.pages == u.pages[page := frame]
  {
    if EnsureTables(u, 3, page).Some? { EnsureTablesPages(u, 3, page); }
  }

  lemma {:induction false} MapRangePages(u: Mmu, page: nat, frame: nat, n: nat)
    requires MapRange(u, page, frame, n).Some?
    ensures var v := MapRange(u, page, frame, n).value;
            && (forall p :: p in u.pages ==> p in v.pages && v.pages[p] == u.pages[p])
            && (forall p :: page <= p < page + n ==> p in v.pages && v.pages[p] == frame + (p - page))
            && (forall p :: p in v.pages ==> p in u.pages || page <= p < page + n)
    ensures forall p :: page <= p < page + n ==> p !in u.pages
    decreases n
  {
    if n > 0 {
      MapToPages(u, page, frame);
      MapRangePages(MapTo(u, page, frame).value, page + 1, frame + 1, n - 1);
    }
  }

  /** One of the `n` pages from `s` on is mapped, or the null page. */
  ghost predicate Blocked(mapped: set<nat>, s: nat, n: nat) {
    exists p :: s <= p < s + n && (p in mapped || p == 0)
  }

  lemma BlockedIs(mapped: set<nat>, s: nat, n: nat)
    ensures Blocked(mapped, s, n) <==> !RunAt(mapped, s, n)
  {
    if !RunAt(mapped, s, n) {
      var i: nat :| s <= i < s + n && !Free(mapped, i);
      assert i in mapped || i == 0;
    }
    if Blocked(mapped, s, n) {
      var p :| s <= p < s + n && (p in mapped || p == 0);
      assert !Free(mapped, p);
    }
  }

  /** The first place in the region for `n` pages. */
  ghost predicate Leftmost(mapped: set<nat>, lo: nat, hi: nat, s: nat, n: nat) {
    lo <= s && s + n <= hi && !Blocked(mapped, s, n) && forall r :: lo <= r < s ==> Blocked(mapped, r, n)
  }

  /** The number of pages from that of the first byte to that of the byte past the last. */
  lemma PageCountIs(start: nat, size: nat)
    ensures PageCount(start, size) == (start + size) / PAGE - start / PAGE + 1
  {
  }

  /** Byte `a - virt` of the object is `a`'s offset into the same page of the run. */
  lemma PageOf(start: nat, page: nat, a: nat)
    requires page * PAGE + start % PAGE <= a
    ensures var b := start + (a - (page * PAGE + start % PAGE));
            a / PAGE == page + (b / PAGE - start / PAGE) && a % PAGE == b % PAGE
  {
  }

  /** Every byte of the object (and one more) is reachable through the returned address. The pages added are exactly
      those these bytes lie on, and they are the leftmost free run of that length; no mapping that was there has
      changed. */
  lemma MapPagesCorrect(u: Mmu, start: nat, size: nat, lo: nat, hi: nat)
    requires MapPagesFrom(u, start, size, lo, hi).Some?
    ensures var (virt, v) := MapPagesFrom(u, start, size, lo, hi).value;
            && (forall a :: virt <= a <= virt + size ==> Translate(v, a) == Some(start + (a - virt)))
            && (forall p :: p in u.pages ==> p in v.pages && v.pages[p] == u.pages[p])
            && (forall p :: p in v.pages && p !in u.pages <==> virt / PAGE <= p <= (virt + size) / PAGE)
            && Leftmost(u.pages.Keys, lo, hi, virt / PAGE, (start + size) / PAGE - start / PAGE + 1)
            && virt % PAGE == start % PAGE
  {
    var (virt, v) := MapPagesFrom(u, start, size, lo, hi).value;
    var first, n := start / PAGE, PageCount(start, size);
    var page := FirstRun(u.pages.Keys, n, lo, hi).value;
    PageCountIs(start, size);
    MapRangePages(u, page, first, n);
    PageOf(start, page, virt);
    PageOf(start, page, virt + size);
    forall a | virt <= a <= virt + size ensures Translate(v, a) == Some(start + (a - virt)) {
      PageOf(start, page, a);
      assert first <= (start + (a - virt)) / PAGE < first + n;
    }
    LeftmostIs(u.pages.Keys, n, lo, hi);
  }

  // ---- When it panics -------------------------------------------------------------------------

  /** Going from `u` to `r` takes a frame for each of the tables `ts` that `u` lacks, and fails exactly if there are
      too few. */
  ghost predicate Costs(u: Mmu, r: Option<Mmu>, ts: set<(nat, nat)>) {
    var cost := |ts - u.tables.Keys|;
    if |u.pool| < cost then r == None
    else r.Some? && r.value.tables.Keys == u.tables.Keys + ts && |r.value.pool| == |u.pool| - cost
  }

  lemma MapToCost(u: Mmu, page: nat, frame: nat)
    requires page !in u.pages
    ensures Costs(u, MapTo(u, page, frame), Path(3, page))
  {
    EnsureTablesCost(u, 3, page);
    MissingIs(u.tables.Keys, 3, page);
    if EnsureTables(u, 3, page).Some? {
      EnsureTablesSpend(u, 3, page);
      Union(u.tables.Keys, Path(3, page));
    }
  }

  lemma CostsAdd(u: Mmu, mid: Option<Mmu>, r: Option<Mmu>, ts: set<(nat, nat)>, ts': set<(nat, nat)>)
    requires Costs(u, mid, ts) && if mid.Some? then Costs(mid.value, r, ts') else r == None
    ensures Costs(u, r, ts + ts')
  {
    CostSplit(ts, ts', u.tables.Keys);
  }

  /** Mapping a free run takes a frame for each table its pages lack, and succeeds exactly if there are that many. */
  lemma {:induction false} MapRangeCost(u: Mmu, page: nat, frame: nat, n: nat, ts: set<(nat, nat)>)
    requires ts == RunTables(page, n) && forall p :: page <= p < page + n ==> p !in u.pages
    ensures Costs(u, MapRange(u, page, frame, n), ts)
    decreases n
  {
    if n == 0 {
      NoCost(u);
    } else {
      var rest := RunTables(page + 1, n - 1);
      MapToPages(u, page, frame);
      match MapTo(u, page, frame)
      case None => MapNextCost(u, None, page, frame, n, None, rest);
      case Some(v) =>
        var r := MapRange(v, page + 1, frame + 1, n - 1);
        MapRangeCost(v, page + 1, frame + 1, n - 1, rest);
        MapNextCost(u, Some(v), page, frame, n, r, rest);
    }
  }

  lemma NoCost(u: Mmu)
    ensures Costs(u, Some(u), {})
  {
    assert u.tables.Keys + {} == u.tables.Keys && {} - u.tables.Keys == {};
  }

  lemma MapNextCost(u: Mmu, mid: Option<Mmu>, page: nat, frame: nat, n: nat, r: Option<Mmu>, rest: set<(nat, nat)>)
    requires page !in u.pages && n > 0 && MapTo(u, page, frame) == mid
    requires if mid.Some? then r == MapRange(mid.value, page + 1, frame + 1, n - 1) else r == None
    requires mid.Some? ==> Costs(mid.value, r, rest)
    ensures Costs(u, MapRange(u, page, frame, n), Path(3, page) + rest)
  {
    MapRangeStep(u, page, frame, n);
    MapToCost(u, page, frame);
    CostsAdd(u, mid, r, Path(3, page), rest);
  }

  /** `map_pages_from` panics exactly if no free run of the pages needed is in the region, or the leftmost one needs
      more new tables than there are frames. */
  lemma MapPagesPanicsIff(u: Mmu, start: nat, size: nat, lo: nat, hi: nat)
    ensures var n := (start + size) / PAGE - start / PAGE + 1;
            MapPagesFrom(u, start, size, lo, hi) == None <==>
            forall s: nat :: Leftmost(u.pages.Keys, lo, hi, s, n) ==> |u.pool| < |RunTables(s, n) - u.tables.Keys|
  {
    var n := (start + size) / PAGE - start / PAGE + 1;
    PageCountIs(start, size);
    LeftmostIs(u.pages.Keys, n, lo, hi);
    match FirstRun(u.pages.Keys, n, lo, hi)
    case None =>
    case Some(page) =>
      forall p | page <= p < page + n ensures p !in u.pages { assert Free(u.pages.Keys, p); }
      MapRangeCost(u, page, start / PAGE, n, RunTables(page, n));
  }

  /** The search finds it, if there is one. */
  lemma LeftmostIs(mapped: set<nat>, n: nat, lo: nat, hi: nat)
    requires n > 0
    ensures forall s: nat :: Leftmost(mapped, lo, hi, s, n) <==> FirstRun(mapped, n, lo, hi) == Some(s)
  {
    forall s: nat ensures Blocked(mapped, s, n) <==> !RunAt(mapped, s, n) { BlockedIs(mapped, s, n); }
  }

  lemma MapOutsideKeeps(u: Mmu, page: nat, frame: nat)
    requires Inv(u) && !ManagedPage(page) && MapTo(u, page, frame).Some?
    ensures var v := MapTo(u, page, frame).value; Inv(v) && Flat(v) == Flat(u)
  {
    EnsureTablesKeeps(u, 3, page);
    var v := EnsureTables(u, 3, page).value;
    SamePagesFlat(u, v);
    UnmanagedPageKeeps(v, page, frame);
  }

  lemma UnmanagedPageKeeps(u: Mmu, page: nat, frame: nat)
    requires Inv(u) && !ManagedPage(page)
    ensures var v := u.(pages := u.pages[page := frame]); Inv(v) && Flat(v) == Flat(u)
  {
    var v := u.(pages := u.pages[page := frame]);
    assert forall p :: Mapped(v, p) <==> Mapped(u, p);
    assert forall f :: Backed(v, f) <==> Backed(u, f);
    assert forall a :: 0 <= a < MANAGED_END ==> Seen(v, a) == Seen(u, a);
  }

  /** Device mappings above the managed range take frames for their tables but disturb no managed byte. */
  lemma {:induction false} MapRangeKeeps(u: Mmu, page: nat, frame: nat, n: nat)
    requires Inv(u) && MANAGED_END <= page * PAGE && MapRange(u, page, frame, n).Some?
    ensures var v := MapRange(u, page, frame, n).value; Inv(v) && Flat(v) == Flat(u)
    decreases n
  {
    if n > 0 {
      MapOutsideKeeps(u, page, frame);
      MapRangeKeeps(MapTo(u, page, frame).value, page + 1, frame + 1, n - 1);
    }
  }
}
