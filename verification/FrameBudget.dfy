/** Where the physical frames go: every frame that left the pool is a managed page or a page table on the path to one,
    so what a set of pages costs can be counted exactly. */
module FrameBudget {
  import opened Bytes
  import opened Wrappers
  import opened Frames
  import opened Paging

  ghost function ManagedIn(pages: set<nat>): (ps: set<nat>) { set p | p in pages && ManagedPage(p) }

  ghost function ManagedPages(u: Mmu): (ps: set<nat>) { ManagedIn(u.pages.Keys) }

  lemma ManagedGrow(pages: set<nat>, a: nat)
    requires Managed(a)
    ensures ManagedIn(pages + {a / PAGE}) == ManagedIn(pages) + {a / PAGE}
  {
    assert ManagedPage(a / PAGE);
  }

  /** The tables of levels 1 to `level` on the path to `page`. */
  ghost function Path(level: nat, page: nat): (ts: set<(nat, nat)>)
    decreases level, page
  {
    if level == 0 then {} else Path(level - 1, page) + {(level, TableIndex(level, page))}
  }

  predicate OnPath(t: (nat, nat), page: nat, level: nat := 3) { 1 <= t.0 <= level && t.1 == TableIndex(t.0, page) }

  lemma {:induction false} PathIs(level: nat, page: nat)
    ensures forall t :: t in Path(level, page) <==> OnPath(t, page, level)
  {
    if level > 0 { PathIs(level - 1, page); }
  }

  /** `tables` are those on the paths to `pages`. */
  ghost predicate TablesOf(pages: set<nat>, tables: set<(nat, nat)>) {
    && (forall t, p :: p in pages && OnPath(t, p) ==> t in tables)
    && (forall t :: t in tables ==> OnSomePath(t, pages))
  }

  ghost predicate OnSomePath(t: (nat, nat), pages: set<nat>) { exists p :: p in pages && OnPath(t, p) }

  lemma TablesOfGrow(pages: set<nat>, tables: set<(nat, nat)>, page: nat)
    requires TablesOf(pages, tables)
    ensures TablesOf(pages + {page}, tables + Path(3, page))
  {
    PathIs(3, page);
    forall t | t in tables + Path(3, page) ensures OnSomePath(t, pages + {page}) {
      if t in tables {
        var p :| p in pages && OnPath(t, p);
        assert p in pages + {page};
      } else {
        assert page in pages + {page} && OnPath(t, page);
      }
    }
  }

  lemma TablesOfMono(pages: set<nat>, tables: set<(nat, nat)>, pages': set<nat>, tables': set<(nat, nat)>)
    requires TablesOf(pages, tables) && TablesOf(pages', tables') && pages <= pages'
    ensures tables <= tables'
  {
    forall t | t in tables ensures t in tables' {
      assert OnSomePath(t, pages);
      var p :| p in pages && OnPath(t, p);
      assert p in pages';
    }
  }

  /** Of `n` frames in all, each is in the pool, behind a managed page, or a table on the path to one. */
  ghost predicate Ledger(u: Mmu, n: nat) {
    |u.pool| + |ManagedPages(u)| + |u.tables.Keys| == n && TablesOf(ManagedPages(u), u.tables.Keys)
  }

  // ---- Set sizes ------------------------------------------------------------------------------

  lemma Subset<T>(a: set<T>, b: set<T>)
    requires a <= b
    ensures |a| <= |b|
  {
    assert |b - a| == |b| - |a|;
  }

  lemma OneMore<T>(a: set<T>, x: T)
    requires x !in a
    ensures |a + {x}| == |a| + 1
  {
  }

  lemma Union<T>(a: set<T>, b: set<T>)
    ensures |a + b| == |a| + |b - a|
  {
    assert a + b == a + (b - a);
  }

  lemma CostSplit<T>(a: set<T>, b: set<T>, had: set<T>)
    ensures |(a + b) - had| == |a - had| + |b - (had + a)|
    ensures had + a + b == had + (a + b)
  {
    assert (a + b) - had == (a - had) + (b - (had + a));
  }

  // ---- Faults ---------------------------------------------------------------------------------

  lemma EnsureTableSpends(u: Mmu, level: nat, page: nat)
    requires EnsureTable(u, level, page).Some?
    ensures var v := EnsureTable(u, level, page).value;
            && v.pages == u.pages && |v.pool| + |v.tables.Keys| == |u.pool| + |u.tables.Keys|
            && v.tables.Keys == u.tables.Keys + {(level, TableIndex(level, page))}
  {
    var key := (level, TableIndex(level, page));
    var v := EnsureTable(u, level, page).value;
    assert v.tables.Keys == u.tables.Keys + {key};
    if key !in u.tables.Keys { OneMore(u.tables.Keys, key); }
  }

  lemma PathGrow(ts: set<(nat, nat)>, level: nat, page: nat)
    requires level > 0
    ensures ts + {(level, TableIndex(level, page))} + Path(level - 1, page) == ts + Path(level, page)
  {
  }

  lemma {:induction false} EnsureTablesSpend(u: Mmu, level: nat, page: nat)
    requires EnsureTables(u, level, page).Some?
    ensures var v := EnsureTables(u, level, page).value;
            && v.pages == u.pages && |v.pool| + |v.tables.Keys| == |u.pool| + |u.tables.Keys|
            && v.tables.Keys == u.tables.Keys + Path(level, page)
    decreases level
  {
    if level > 0 {
      var v := EnsureTable(u, level, page).value;
      EnsureTableSpends(u, level, page);
      EnsureTablesSpend(v, level - 1, page);
      assert EnsureTables(u, level, page) == EnsureTables(v, level - 1, page);
      PathGrow(u.tables.Keys, level, page);
    }
  }

  /** A fault takes one frame for the page and one for each table missing on its path. */
  lemma TouchSpends(u: Mmu, a: nat)
    requires Managed(a) && a / PAGE !in u.pages && Touch(u, a).Some?
    ensures var v := Touch(u, a).value;
            && |v.pool| + 1 + |v.tables.Keys| == |u.pool| + |u.tables.Keys|
            && v.pages.Keys == u.pages.Keys + {a / PAGE}
            && v.tables.Keys == u.tables.Keys + Path(3, a / PAGE)
  {
    var u1 := u.(pool := u.pool[1..]);
    EnsureTablesSpend(u1, 3, a / PAGE);
    var v := EnsureTables(u1, 3, a / PAGE).value;
    assert Touch(u, a).value == v.(pages := v.pages[a / PAGE := u.pool[0]], phys := v.phys[u.pool[0] := ZeroPage()]);
  }

  lemma TouchBalances(u: Mmu, a: nat, n: nat)
    requires Ledger(u, n) && Managed(a) && Touch(u, a).Some?
    ensures Ledger(Touch(u, a).value, n)
    ensures ManagedPages(Touch(u, a).value) == ManagedPages(u) + {a / PAGE}
  {
    var v, page := Touch(u, a).value, a / PAGE;
    ManagedGrow(u.pages.Keys, a);
    if page in u.pages {
      assert u.pages.Keys + {page} == u.pages.Keys;
    } else {
      TouchSpends(u, a);
      OneMore(ManagedPages(u), page);
      TablesOfGrow(ManagedPages(u), u.tables.Keys, page);
    }
  }

  /** The books balance, and only `pages` have been paid for. */
  ghost predicate Solvent(u: Mmu, n: nat, pages: set<nat>) { Ledger(u, n) && ManagedPages(u) <= pages }

  /** `[a, a + n)` lies in `pages`. */
  ghost predicate Inside(a: nat, n: nat, pages: set<nat>) { forall b: nat :: a <= b < a + n ==> b / PAGE in pages }

  lemma RangeBalances(u: Mmu, a: nat, len: nat, n: nat, pages: set<nat>)
    requires Solvent(u, n, pages) && InRange(a, len) && TouchRange(u, a, len).Some? && Inside(a, len, pages)
    ensures Solvent(TouchRange(u, a, len).value, n, pages)
  {
    forall v, b | Solvent(v, n, pages) && a <= b < a + len && Touch(v, b).Some?
      ensures Solvent(Touch(v, b).value, n, pages)
    {
      TouchSolvent(v, b, n, pages);
    }
    TouchEach(u, a, len, v => Solvent(v, n, pages));
  }

  /** What every fault in a range keeps, all of them together keep. */
  lemma {:induction false} TouchEach(u: Mmu, a: nat, len: nat, keep: Mmu -> bool)
    requires keep(u) && TouchRange(u, a, len).Some?
    requires forall v, b: nat :: keep(v) && a <= b < a + len && Touch(v, b).Some? ==> keep(Touch(v, b).value)
    ensures keep(TouchRange(u, a, len).value)
    decreases len
  {
    if len > 0 {
      var v, k := Touch(u, a).value, PAGE - a % PAGE;
      assert keep(v);
      if len > k { TouchEach(v, a + k, len - k, keep); }
    }
  }

  lemma TouchSolvent(u: Mmu, a: nat, n: nat, pages: set<nat>)
    requires Solvent(u, n, pages) && Managed(a) && Touch(u, a).Some? && Inside(a, 1, pages)
    ensures Solvent(Touch(u, a).value, n, pages)
  {
    TouchBalances(u, a, n);
    assert a / PAGE in pages;
  }

  lemma {:induction false} PokeBalances(u: Mmu, a: nat, bs: seq<byte>)
    ensures Poke(u, a, bs) == u.(phys := Poke(u, a, bs).phys)
    decreases |bs|
  {
    if bs != [] { PokeBalances(u.(phys := ByteSet(u.pages, u.phys, a, bs[0])), a + 1, bs[1..]); }
  }

  lemma SameRoles(u: Mmu, v: Mmu, n: nat)
    requires Ledger(u, n) && v == u.(phys := v.phys)
    ensures Ledger(v, n) && ManagedPages(v) == ManagedPages(u)
  {
    assert ManagedPages(v) == ManagedPages(u);
  }

  /** Conservation: an access moves frames between the columns and loses none. */
  lemma DoBalances(u: Mmu, x: Access, n: nat, pages: set<nat>)
    requires Solvent(u, n, pages) && Fits(x) && Do(u, x).Some? && Inside(x.addr, Length(x), pages)
    ensures Solvent(Do(u, x).value.1, n, pages)
  {
    RangeBalances(u, x.addr, Length(x), n, pages);
    if x.Write? {
      var v := TouchRange(u, x.addr, Length(x)).value;
      PokeBalances(v, x.addr, x.bytes);
      SameRoles(v, Poke(v, x.addr, x.bytes), n);
    }
  }

  lemma BootBalances(u: Mmu, regions: seq<Region>)
    requires Paging.Booted(u, regions)
    ensures Ledger(u, |UsableFrames(regions)|) && ManagedPages(u) == {}
  {
    assert ManagedIn(u.pages.Keys) == {};
  }

  // ---- Enough frames --------------------------------------------------------------------------

  lemma {:induction false} MissingIs(ts: set<(nat, nat)>, level: nat, page: nat)
    ensures Missing(ts, level, page) == |Path(level, page) - ts|
  {
    if level > 0 {
      MissingIs(ts, level - 1, page);
      PathIs(level - 1, page);
      OneMissing(Path(level - 1, page), (level, TableIndex(level, page)), ts);
    }
  }

  lemma OneMissing<T>(s: set<T>, x: T, had: set<T>)
    requires x !in s
    ensures |s + {x} - had| == (if x in had then 0 else 1) + |s - had|
  {
    if x in had { assert s + {x} - had == s - had; } else { assert s + {x} - had == (s - had) + {x}; }
  }

  /** As long as the pages stay within `pages`, frames for those and their tables are enough. */
  lemma TouchSucceeds(u: Mmu, a: nat, n: nat, pages: set<nat>, tables: set<(nat, nat)>)
    requires Solvent(u, n, pages) && Managed(a) && a / PAGE in pages
    requires TablesOf(pages, tables) && n >= |pages| + |tables|
    ensures Touch(u, a).Some?
  {
    var page := a / PAGE;
    if page !in u.pages {
      FaultPanicsIff(u, a);
      MissingIs(u.tables.Keys, 3, page);
      OneMore(ManagedPages(u), page);
      Subset(ManagedPages(u) + {page}, pages);
      TablesOfGrow(ManagedPages(u), u.tables.Keys, page);
      TablesOfMono(ManagedPages(u) + {page}, u.tables.Keys + Path(3, page), pages, tables);
      Union(u.tables.Keys, Path(3, page));
      Subset(u.tables.Keys + Path(3, page), tables);
    }
  }

  /** And they are needed: pages that are mapped have taken that many. */
  lemma PagesCost(u: Mmu, n: nat, pages: set<nat>, tables: set<(nat, nat)>)
    requires Ledger(u, n) && pages <= ManagedPages(u) && TablesOf(pages, tables)
    ensures n >= |pages| + |tables|
  {
    Subset(pages, ManagedPages(u));
    TablesOfMono(pages, tables, ManagedPages(u), u.tables.Keys);
    Subset(tables, u.tables.Keys);
  }

  // ---- When an access panics ------------------------------------------------------------------

  /** The tables on the paths to pages `page` to `page + n - 1`. */
  ghost function RunTables(page: nat, n: nat): (ts: set<(nat, nat)>)
    decreases n
  {
    if n == 0 then {} else Path(3, page) + RunTables(page + 1, n - 1)
  }

  lemma {:induction false} RunTablesIs(page: nat, n: nat)
    ensures forall t :: t in RunTables(page, n) <==> exists p :: page <= p < page + n && OnPath(t, p)
    decreases n
  {
    if n > 0 {
      PathIs(3, page);
      RunTablesIs(page + 1, n - 1);
    }
  }

  /** Pages `page` to `page + n - 1`. */
  ghost function RunPages(page: nat, n: nat): (ps: set<nat>)
    decreases n
  {
    if n == 0 then {} else {page} + RunPages(page + 1, n - 1)
  }

  lemma {:induction false} RunPagesIs(page: nat, n: nat)
    ensures forall p :: p in RunPages(page, n) <==> page <= p < page + n
    decreases n
  {
    if n > 0 { RunPagesIs(page + 1, n - 1); }
  }

  /** How many pages `[a, a + n)` touches. */
  function Span(a: nat, n: nat): (k: nat) { if n == 0 then 0 else (a + n - 1) / PAGE - a / PAGE + 1 }

  /** What it takes to touch `m` pages from `page` on, one after the other: a frame for each that is not there and for
      each table still missing on its path. */
  ghost function RunCost(pages: set<nat>, tables: set<(nat, nat)>, page: nat, m: nat): (cost: nat)
    decreases m
  {
    if m == 0 then 0
    else if page in pages then RunCost(pages, tables, page + 1, m - 1)
    else 1 + Missing(tables, 3, page) + RunCost(pages + {page}, tables + Path(3, page), page + 1, m - 1)
  }

  /** `[a, a + n)` lies in the managed range, on `m` pages from `page` on. */
  ghost predicate Spans(a: nat, n: nat, page: nat, m: nat) { page == a / PAGE && m == Span(a, n) && InRange(a, n) }

  lemma NextSpan(a: nat, n: nat, page: nat, m: nat)
    requires n > 0 && Spans(a, n, page, m)
    ensures m > 0 && Managed(a)
    ensures var k := PAGE - a % PAGE; if n <= k then m == 1 else Spans(a + k, n - k, page + 1, m - 1)
  {
  }

  lemma TouchRangeStep(u: Mmu, a: nat, n: nat)
    requires n > 0
    ensures var k := PAGE - a % PAGE;
            TouchRange(u, a, n)
            == match Touch(u, a)
               case None => None
               case Some(v) => if n <= k then Some(v) else TouchRange(v, a + k, n - k)
  {
  }

  lemma TouchCost(u: Mmu, a: nat, page: nat)
    requires Managed(a) && page == a / PAGE && page !in u.pages
    ensures var cost := 1 + Missing(u.tables.Keys, 3, page);
            match Touch(u, a)
            case None => |u.pool| < cost
            case Some(v) =>
              && |v.pool| == |u.pool| - cost
              && v.pages.Keys == u.pages.Keys + {page} && v.tables.Keys == u.tables.Keys + Path(3, page)
  {
    FaultPanicsIff(u, a);
    if Touch(u, a).Some? {
      TouchSpends(u, a);
      MissingIs(u.tables.Keys, 3, page);
      Union(u.tables.Keys, Path(3, page));
    }
  }

  /** `r` is what is left of `u`, if its frames cover `cost`. */
  ghost predicate Affords(u: Mmu, r: Option<Mmu>, cost: nat) { r.Some? <==> |u.pool| >= cost }

  /** The first page, and then the rest. */
  lemma NextCost(u: Mmu, a: nat, page: nat, m: nat, r: Option<Mmu>)
    requires Managed(a) && page == a / PAGE && m > 0 && (Touch(u, a) == None ==> r == None)
    requires Touch(u, a).Some? ==>
               var v := Touch(u, a).value; Affords(v, r, RunCost(v.pages.Keys, v.tables.Keys, page + 1, m - 1))
    ensures Affords(u, r, RunCost(u.pages.Keys, u.tables.Keys, page, m))
  {
    if page !in u.pages { TouchCost(u, a, page); }
  }

  lemma {:induction false} RangeCost(u: Mmu, a: nat, n: nat, page: nat, m: nat)
    requires Spans(a, n, page, m)
    ensures Affords(u, TouchRange(u, a, n), RunCost(u.pages.Keys, u.tables.Keys, page, m))
    decreases n
  {
    if n > 0 {
      var k := PAGE - a % PAGE;
      NextSpan(a, n, page, m);
      TouchRangeStep(u, a, n);
      if Touch(u, a).Some? && n > k { RangeCost(Touch(u, a).value, a + k, n - k, page + 1, m - 1); }
      NextCost(u, a, page, m, TouchRange(u, a, n));
    }
  }

  /** The tables on the path to a managed page of the set are there. */
  ghost predicate Wired(pages: set<nat>, tables: set<(nat, nat)>) {
    forall p :: p in pages && ManagedPage(p) ==> Path(3, p) <= tables
  }

  /** As they always are while the books balance. */
  lemma LedgerWired(u: Mmu, n: nat)
    requires Ledger(u, n)
    ensures Wired(u.pages.Keys, u.tables.Keys)
  {
    forall p | p in u.pages && ManagedPage(p) ensures Path(3, p) <= u.tables.Keys {
      PathIs(3, p);
      assert p in ManagedPages(u);
    }
  }

  ghost predicate AllManaged(page: nat, m: nat) { forall p :: page <= p < page + m ==> ManagedPage(p) }

  lemma CostThere<T>(a: set<T>, b: set<T>, had: set<T>)
    requires a <= had
    ensures (a + b) - had == b - had
  {
  }

  lemma WiredGrows(pages: set<nat>, tables: set<(nat, nat)>, page: nat)
    requires Wired(pages, tables)
    ensures Wired(pages + {page}, tables + Path(3, page))
  {
  }

  /** In the end that is a frame for each page and each table missing, whatever the order. */
  lemma {:induction false} RunCostIs(pages: set<nat>, tables: set<(nat, nat)>, page: nat, m: nat,
                                     ps: set<nat>, ts: set<(nat, nat)>)
    requires Wired(pages, tables) && AllManaged(page, m) && ps == RunPages(page, m) && ts == RunTables(page, m)
    ensures RunCost(pages, tables, page, m) == |ps - pages| + |ts - tables|
    decreases m
  {
    if m > 0 {
      var rest, more := RunPages(page + 1, m - 1), RunTables(page + 1, m - 1);
      assert ManagedPage(page);
      if page in pages {
        RunCostIs(pages, tables, page + 1, m - 1, rest, more);
        CostThere({page}, rest, pages);
        CostThere(Path(3, page), more, tables);
      } else {
        WiredGrows(pages, tables, page);
        RunCostIs(pages + {page}, tables + Path(3, page), page + 1, m - 1, rest, more);
        FreshCost(pages, tables, page, rest, more);
      }
    }
  }

  lemma FreshCost(pages: set<nat>, tables: set<(nat, nat)>, page: nat, rest: set<nat>, more: set<(nat, nat)>)
    requires page !in pages
    ensures |({page} + rest) - pages| == 1 + |rest - (pages + {page})|
    ensures |(Path(3, page) + more) - tables| == Missing(tables, 3, page) + |more - (tables + Path(3, page))|
  {
    CostSplit({page}, rest, pages);
    assert {page} - pages == {page};
    CostSplit(Path(3, page), more, tables);
    MissingIs(tables, 3, page);
  }

  lemma SpanManaged(a: nat, n: nat, page: nat, m: nat)
    requires Spans(a, n, page, m)
    ensures AllManaged(page, m)
  {
    forall p | page <= p < page + m ensures ManagedPage(p) {}
  }

  /** An access of any length panics exactly if the frames left do not cover the pages of its range that are not there
      and the tables missing on their paths. */
  lemma AccessPanicsIff(u: Mmu, x: Access)
    requires Fits(x) && Wired(u.pages.Keys, u.tables.Keys)
    ensures var (first, k) := (x.addr / PAGE, Span(x.addr, Length(x)));
            Do(u, x) == None <==>
            |u.pool| < |RunPages(first, k) - u.pages.Keys| + |RunTables(first, k) - u.tables.Keys|
  {
    var (first, k) := (x.addr / PAGE, Span(x.addr, Length(x)));
    RangeCost(u, x.addr, Length(x), first, k);
    SpanManaged(x.addr, Length(x), first, k);
    RunCostIs(u.pages.Keys, u.tables.Keys, first, k, RunPages(first, k), RunTables(first, k));
  }
}
