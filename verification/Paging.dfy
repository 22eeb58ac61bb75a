/** Demand paging: an access to an unmapped page of the managed range faults, `lazy_map` gives it a zeroed
    frame, and the access is retried. */
module Paging {
  import opened Bytes
  import opened Wrappers
  import opened Frames

  const MANAGED_START: nat := 0x0000_1000_0000_0000
  const MANAGED_END: nat := 0x0000_7fff_ffff_f000

  /** `pages` maps pages to frames; `tables` records the page-table frames `map_to` has created, keyed by level
      and index; `phys` is what every frame holds; `pool` is `Frames.Available`, the frames the frame allocator
      will hand out, in order (`Frames.TakeFirst`). */
  datatype Mmu = Mmu(pages: map<nat, nat>, tables: map<(nat, nat), nat>, phys: map<nat, seq<byte>>, pool: seq<nat>)

  /** What `fill(0)` and a fresh page table leave in a frame. */
  function ZeroPage(): (s: seq<byte>)
    ensures |s| == PAGE && forall i :: 0 <= i < PAGE ==> s[i] == 0
  {
    seq(PAGE, _ => 0)
  }

  predicate Managed(a: nat) { MANAGED_START <= a < MANAGED_END }

  predicate ManagedPage(p: nat) { Managed(p * PAGE) }

  /** Which table of `level` the path to `page` goes through. */
  function TableIndex(level: nat, page: nat): (i: nat)
  {
    if level == 0 then page else TableIndex(level - 1, page) / 512
  }

  /** `create_next_table`: make sure the table of this level on the path to `page` exists, zeroing a new one. */
  function EnsureTable(u: Mmu, level: nat, page: nat): (r: Option<Mmu>)
  {
    var key := (level, TableIndex(level, page));
    if key in u.tables then Some(u)
    else if u.pool == [] then None
    else Some(Mmu(u.pages, u.tables[key := u.pool[0]], u.phys[u.pool[0] := ZeroPage()], u.pool[1..]))
  }

  /** The tables below the root on the way to `page`. */
  function EnsureTables(u: Mmu, level: nat, page: nat): (r: Option<Mmu>)
    decreases level, page
  {
    if level == 0 then Some(u)
    else
      match EnsureTable(u, level, page)
      case None => None
      case Some(v) => EnsureTables(v, level - 1, page)
  }

  /** `map_to`; None when a table frame is missing or the page is already mapped (the callers unwrap). */
  function MapTo(u: Mmu, page: nat, frame: nat): (r: Option<Mmu>)
  {
    match EnsureTables(u, 3, page)
    case None => None
    case Some(v) => if page in v.pages then None else Some(v.(pages := v.pages[page := frame]))
  }

  datatype Fault = Declined | Panicked | Handled(mmu: Mmu)

  function LazyMap(u: Mmu, a: nat): (r: Fault)
  {
    if a < MANAGED_START || a >= MANAGED_END then Declined
    else if a / PAGE in u.pages then Declined
    else if u.pool == [] then Panicked
    else
      match MapTo(u.(pool := u.pool[1..]), a / PAGE, u.pool[0])
      case None => Panicked
      case Some(v) => Handled(v.(phys := v.phys[u.pool[0] := ZeroPage()]))
  }

  /** What the processor does before an access to `a`; None is a kernel panic. */
  function Touch(u: Mmu, a: nat): (r: Option<Mmu>)
  {
    if a / PAGE in u.pages then Some(u)
    else
      match LazyMap(u, a)
      case Handled(v) => Some(v)
      case _ => None
  }

  // ---- Invariant ------------------------------------------------------------------------------

  ghost predicate Mapped(u: Mmu, p: nat) { p in u.pages && ManagedPage(p) }

  /** No frame plays two roles, or the same role twice. */
  ghost predicate Exclusive(u: Mmu) {
    && NoDup(u.pool)
    && (forall p :: Mapped(u, p) ==> u.pages[p] !in u.pool)
    && (forall p, q :: Mapped(u, p) && Mapped(u, q) && u.pages[p] == u.pages[q] ==> p == q)
    && (forall t :: t in u.tables ==> u.tables[t] !in u.pool)
    && (forall t, p :: t in u.tables && Mapped(u, p) ==> u.tables[t] != u.pages[p])
    && (forall t, t' :: t in u.tables && t' in u.tables && u.tables[t] == u.tables[t'] ==> t == t')
  }

  ghost predicate Backed(u: Mmu, f: nat) { f in u.phys && |u.phys[f]| == PAGE }

  ghost predicate Inv(u: Mmu) {
    && Exclusive(u)
    && (forall p :: Mapped(u, p) ==> Backed(u, u.pages[p]))
    && (forall f :: f in u.pool ==> Backed(u, f))
  }

  /** What a program sees at `a`. */
  ghost function Seen(u: Mmu, a: nat): (b: byte)
    requires Inv(u)
  {
    if Mapped(u, a / PAGE) then u.phys[u.pages[a / PAGE]][a % PAGE] else 0
  }

  /** The flat memory the paged one stands for: unmapped bytes count as zero. */
  ghost function Flat(u: Mmu): (m: seq<byte>)
    requires Inv(u)
    ensures |m| == MANAGED_END
    ensures forall a :: 0 <= a < MANAGED_END ==> m[a] == Seen(u, a)
  {
    seq(MANAGED_END, a requires 0 <= a < MANAGED_END => Seen(u, a))
  }

  // ---- Faults are invisible -------------------------------------------------------------------

  /** `v` has the pages of `u`, with the same contents. */
  ghost predicate SamePages(u: Mmu, v: Mmu) {
    && v.pages == u.pages
    && (forall p :: Mapped(u, p) ==> u.pages[p] in u.phys && u.pages[p] in v.phys
                                     && v.phys[u.pages[p]] == u.phys[u.pages[p]])
  }

  /** New tables come from the pool of `u`; old ones stay. */
  ghost predicate TablesGrow(u: Mmu, v: Mmu) {
    && (forall f :: f in v.pool ==> f in u.pool)
    && (forall t :: t in u.tables ==> t in v.tables && v.tables[t] == u.tables[t])
    && (forall t :: t in v.tables ==> t in u.tables || v.tables[t] in u.pool)
  }

  /** The head of the pool is nobody's, and without it the invariant still holds. */
  lemma PopKeeps(u: Mmu)
    requires Inv(u) && u.pool != []
    ensures var f := u.pool[0];
            && Inv(u.(pool := u.pool[1..]))
            && Backed(u, f) && f !in u.pool[1..]
            && (forall p :: Mapped(u, p) ==> u.pages[p] != f)
            && (forall t :: t in u.tables ==> u.tables[t] != f)
  {
    var v := u.(pool := u.pool[1..]);
    assert u.pool[0] in u.pool;
    assert forall x :: x in v.pool ==> x in u.pool && x != u.pool[0];
    assert forall p :: Mapped(v, p) <==> Mapped(u, p);
    assert forall f :: Backed(v, f) <==> Backed(u, f);
  }

  lemma EnsureTableKeeps(u: Mmu, level: nat, page: nat)
    requires Inv(u) && EnsureTable(u, level, page).Some?
    ensures var v := EnsureTable(u, level, page).value; Inv(v) && SamePages(u, v) && TablesGrow(u, v)
  {
    if (level, TableIndex(level, page)) !in u.tables {
      PopKeeps(u);
      var v := EnsureTable(u, level, page).value;
      assert u.pool[0] in u.pool;
      assert forall x :: x in v.pool ==> x in u.pool;
      assert forall p :: Mapped(v, p) <==> Mapped(u, p);
      assert forall f :: Backed(u, f) ==> Backed(v, f);
    }
  }

  lemma {:induction false} EnsureTablesKeeps(u: Mmu, level: nat, page: nat)
    requires Inv(u) && EnsureTables(u, level, page).Some?
    ensures var v := EnsureTables(u, level, page).value; Inv(v) && SamePages(u, v) && TablesGrow(u, v)
    decreases level
  {
    if level > 0 {
      EnsureTableKeeps(u, level, page);
      var v := EnsureTable(u, level, page).value;
      EnsureTablesKeeps(v, level - 1, page);
      assert forall p :: Mapped(v, p) <==> Mapped(u, p);
    }
  }

  /** `map_to` a frame that is nobody's, then zero it. */
  lemma MapFreshKeeps(u: Mmu, page: nat, f: nat)
    requires Inv(u) && ManagedPage(page) && page !in u.pages && Backed(u, f) && f !in u.pool
    requires forall p :: Mapped(u, p) ==> u.pages[p] != f
    requires forall t :: t in u.tables ==> u.tables[t] != f
    ensures var v := u.(pages := u.pages[page := f], phys := u.phys[f := ZeroPage()]);
            Inv(v) && Flat(v) == Flat(u)
  {
    var v := u.(pages := u.pages[page := f], phys := u.phys[f := ZeroPage()]);
    assert forall p :: Mapped(v, p) <==> Mapped(u, p) || p == page;
    assert forall g :: Backed(u, g) ==> Backed(v, g);
    assert Exclusive(v);
    forall a | 0 <= a < MANAGED_END ensures Seen(v, a) == Seen(u, a) {}
  }

  lemma SamePagesFlat(u: Mmu, v: Mmu)
    requires Inv(u) && Inv(v) && SamePages(u, v)
    ensures Flat(u) == Flat(v)
  {
    forall a | 0 <= a < MANAGED_END ensures Seen(v, a) == Seen(u, a) {
      assert Mapped(u, a / PAGE) <==> Mapped(v, a / PAGE);
    }
  }

  /** With the data frame popped and the tables in place, that frame is still nobody's. */
  lemma ReadyToMap(u: Mmu, page: nat)
    requires Inv(u) && u.pool != [] && EnsureTables(u.(pool := u.pool[1..]), 3, page).Some?
    ensures var v := EnsureTables(u.(pool := u.pool[1..]), 3, page).value;
            var f := u.pool[0];
            && Inv(v) && Flat(v) == Flat(u) && v.pages == u.pages
            && Backed(v, f) && f !in v.pool
            && (forall p :: Mapped(v, p) ==> v.pages[p] != f)
            && (forall t :: t in v.tables ==> v.tables[t] != f)
  {
    PopKeeps(u);
    var u1 := u.(pool := u.pool[1..]);
    assert SamePages(u, u1);
    SamePagesFlat(u, u1);
    EnsureTablesKeeps(u1, 3, page);
    SamePagesFlat(u1, EnsureTables(u1, 3, page).value);
    EnsureTablesBacked(u1, 3, page, u.pool[0]);
    assert forall p :: Mapped(u1, p) <==> Mapped(u, p);
  }

  /** A handled fault maps the page to a frame nothing else uses and leaves every visible byte as it was. */
  lemma LazyMapKeeps(u: Mmu, a: nat)
    requires Inv(u) && LazyMap(u, a).Handled?
    ensures var v := LazyMap(u, a).mmu;
            && Inv(v) && Mapped(v, a / PAGE)
            && v.pages.Keys == u.pages.Keys + {a / PAGE}
            && Flat(v) == Flat(u)
  {
    var page := a / PAGE;
    ReadyToMap(u, page);
    var v := EnsureTables(u.(pool := u.pool[1..]), 3, page).value;
    MapFreshKeeps(v, page, u.pool[0]);
    assert LazyMap(u, a).mmu == v.(pages := v.pages[page := u.pool[0]], phys := v.phys[u.pool[0] := ZeroPage()]);
  }

  lemma {:induction false} EnsureTablesBacked(u: Mmu, level: nat, page: nat, f: nat)
    requires Backed(u, f) && EnsureTables(u, level, page).Some?
    ensures Backed(EnsureTables(u, level, page).value, f)
    decreases level
  {
    if level > 0 { EnsureTablesBacked(EnsureTable(u, level, page).value, level - 1, page, f); }
  }

  lemma TouchKeeps(u: Mmu, a: nat)
    requires Inv(u) && Managed(a) && Touch(u, a).Some?
    ensures var v := Touch(u, a).value;
            && Inv(v) && Mapped(v, a / PAGE) && Flat(v) == Flat(u)
            && v.pages.Keys == u.pages.Keys + {a / PAGE}
  {
    if a / PAGE !in u.pages { LazyMapKeeps(u, a); }
  }

  // ---- Accesses and runs ----------------------------------------------------------------------

  /** The bytes `[a, a + n)` lie in the managed range. */
  predicate InRange(a: nat, n: nat) { MANAGED_START <= a && a + n <= MANAGED_END }

  /** Fault in every page of `[a, a + n)`, lowest first; None is a kernel panic. */
  function TouchRange(u: Mmu, a: nat, n: nat): (r: Option<Mmu>)
    decreases n
  {
    if n == 0 then Some(u)
    else
      match Touch(u, a)
      case None => None
      case Some(v) =>
        var k := PAGE - a % PAGE;
        if n <= k then Some(v) else TouchRange(v, a + k, n - k)
  }

  predicate Resident(pages: map<nat, nat>, phys: map<nat, seq<byte>>, a: nat) {
    a / PAGE in pages && pages[a / PAGE] in phys && |phys[pages[a / PAGE]]| == PAGE
  }

  function ByteAt(pages: map<nat, nat>, phys: map<nat, seq<byte>>, a: nat): (b: byte)
  {
    if Resident(pages, phys, a) then phys[pages[a / PAGE]][a % PAGE] else 0
  }

  function ByteSet(pages: map<nat, nat>, phys: map<nat, seq<byte>>, a: nat, b: byte): (phys': map<nat, seq<byte>>)
  {
    if Resident(pages, phys, a) then phys[pages[a / PAGE] := Put(phys[pages[a / PAGE]], a % PAGE, [b])] else phys
  }

  function Peek(u: Mmu, a: nat, n: nat): (bs: seq<byte>)
    ensures |bs| == n
  {
    if n == 0 then [] else Peek(u, a, n - 1) + [ByteAt(u.pages, u.phys, a + n - 1)]
  }

  function Poke(u: Mmu, a: nat, bs: seq<byte>): (v: Mmu)
    decreases |bs|
  {
    if bs == [] then u else Poke(u.(phys := ByteSet(u.pages, u.phys, a, bs[0])), a + 1, bs[1..])
  }

  /** Every page of `[a, a + n)` is mapped. */
  ghost predicate Covered(u: Mmu, a: nat, n: nat) { forall b: nat :: a <= b < a + n ==> Mapped(u, b / PAGE) }

  lemma SamePage(a: nat, b: nat)
    requires a <= b < a + (PAGE - a % PAGE)
    ensures b / PAGE == a / PAGE
  {
  }

  /** Faults taken for an access change no byte, map only pages of the range, and all of them. */
  lemma {:induction false} TouchRangeKeeps(u: Mmu, a: nat, n: nat)
    requires Inv(u) && InRange(a, n) && TouchRange(u, a, n).Some?
    ensures var v := TouchRange(u, a, n).value;
            && Inv(v) && Flat(v) == Flat(u) && Covered(v, a, n) && u.pages.Keys <= v.pages.Keys
            && forall p :: p in v.pages && p !in u.pages ==> a / PAGE <= p && p * PAGE < a + n
    decreases n
  {
    if n > 0 {
      TouchKeeps(u, a);
      var v, k := Touch(u, a).value, PAGE - a % PAGE;
      if n > k {
        TouchRangeKeeps(v, a + k, n - k);
        assert a / PAGE in v.pages && (a + k) / PAGE == a / PAGE + 1;
        CoveredFrom(TouchRange(v, a + k, n - k).value, a, n);
      } else {
        CoveredFrom(v, a, n);
      }
    }
  }

  /** One page and what follows it. */
  lemma CoveredFrom(u: Mmu, a: nat, n: nat)
    requires var k := PAGE - a % PAGE; Mapped(u, a / PAGE) && (n > k ==> Covered(u, a + k, n - k))
    ensures Covered(u, a, n)
  {
    var k := PAGE - a % PAGE;
    forall b: nat | a <= b < a + n ensures Mapped(u, b / PAGE) { if b < a + k { SamePage(a, b); } }
  }

  /** With every page there, nothing faults. */
  lemma {:induction false} CoveredStays(u: Mmu, a: nat, n: nat)
    requires Covered(u, a, n)
    ensures TouchRange(u, a, n) == Some(u)
    decreases n
  {
    if n > 0 {
      assert Mapped(u, a / PAGE);
      var k := PAGE - a % PAGE;
      if n > k {
        assert Covered(u, a + k, n - k);
        CoveredStays(u, a + k, n - k);
      }
    }
  }

  lemma {:induction false} PeekFlat(u: Mmu, a: nat, n: nat)
    requires Inv(u) && InRange(a, n) && Covered(u, a, n)
    ensures Peek(u, a, n) == Flat(u)[a..a + n]
  {
    if n > 0 {
      assert Covered(u, a, n - 1);
      PeekFlat(u, a, n - 1);
      assert Mapped(u, (a + n - 1) / PAGE) && Backed(u, u.pages[(a + n - 1) / PAGE]);
      assert Flat(u)[a..a + n] == Flat(u)[a..a + n - 1] + [Flat(u)[a + n - 1]];
    }
  }

  lemma PokeByteFlat(u: Mmu, a: nat, b: byte)
    requires Inv(u) && Managed(a) && Mapped(u, a / PAGE)
    ensures var v := u.(phys := ByteSet(u.pages, u.phys, a, b));
            Inv(v) && Flat(v) == Put(Flat(u), a, [b])
  {
    var v := u.(phys := ByteSet(u.pages, u.phys, a, b));
    assert Backed(u, u.pages[a / PAGE]);
    assert Exclusive(v);
    assert forall f :: Backed(u, f) ==> Backed(v, f);
    assert forall p :: Mapped(v, p) <==> Mapped(u, p);
    forall c | 0 <= c < MANAGED_END ensures Flat(v)[c] == Put(Flat(u), a, [b])[c] {
      if c == a {
        assert Put(Flat(u), a, [b])[a..a + 1][0] == b;
        assert v.phys[v.pages[a / PAGE]][a % PAGE..a % PAGE + 1][0] == b;
      } else if c / PAGE == a / PAGE {
        assert c % PAGE != a % PAGE;
      }
    }
  }

  lemma {:induction false} PokeFlat(u: Mmu, a: nat, bs: seq<byte>)
    requires Inv(u) && InRange(a, |bs|) && Covered(u, a, |bs|)
    ensures var v := Poke(u, a, bs); Inv(v) && Flat(v) == Put(Flat(u), a, bs) && v == u.(phys := v.phys)
    decreases |bs|
  {
    if bs != [] {
      assert Mapped(u, a / PAGE);
      PokeByteFlat(u, a, bs[0]);
      var v := u.(phys := ByteSet(u.pages, u.phys, a, bs[0]));
      forall b: nat | a + 1 <= b < a + |bs| ensures Mapped(v, b / PAGE) { assert Mapped(u, b / PAGE); }
      PokeFlat(v, a + 1, bs[1..]);
      PutCons(Flat(u), a, bs);
    }
  }

  /** An access of any length: a load, or a store. */
  datatype Access = Read(addr: nat, count: nat) | Write(addr: nat, bytes: seq<byte>)

  function Length(x: Access): (n: nat) { match x case Read(_, n) => n case Write(_, bs) => |bs| }

  predicate Fits(x: Access) { InRange(x.addr, Length(x)) }

  /** One access with faults handled: what it reads, and the machine after it; None is a panic. */
  function Do(u: Mmu, x: Access): (r: Option<(seq<byte>, Mmu)>)
  {
    match TouchRange(u, x.addr, Length(x))
    case None => None
    case Some(v) =>
      match x
      case Read(a, n) => Some((Peek(v, a, n), v))
      case Write(a, bs) => Some(([], Poke(v, a, bs)))
  }

  /** The same access to a flat memory. */
  function FlatDo(m: seq<byte>, x: Access): (r: (seq<byte>, seq<byte>))
    requires |m| == MANAGED_END
    ensures |r.1| == MANAGED_END
  {
    match x
    case Read(a, n) => (if a + n <= |m| then m[a..a + n] else [], m)
    case Write(a, bs) => ([], Put(m, a, bs))
  }

  /** An access that goes through acts on the flat memory, whether or not it crosses pages, and leaves its pages
      mapped. */
  lemma DoRefines(u: Mmu, x: Access)
    requires Inv(u) && Fits(x) && Do(u, x).Some?
    ensures var (out, v) := Do(u, x).value;
            && Inv(v) && (out, Flat(v)) == FlatDo(Flat(u), x)
            && Covered(v, x.addr, Length(x)) && u.pages.Keys <= v.pages.Keys
  {
    TouchRangeKeeps(u, x.addr, Length(x));
    var v := TouchRange(u, x.addr, Length(x)).value;
    match x
    case Read(a, n) => PeekFlat(v, a, n);
    case Write(a, bs) =>
      PokeFlat(v, a, bs);
      forall b: nat | a <= b < a + |bs| ensures Mapped(Poke(v, a, bs), b / PAGE) { assert Mapped(v, b / PAGE); }
  }

  function RunPaged(u: Mmu, xs: seq<Access>): (r: Option<(seq<seq<byte>>, Mmu)>)
    decreases |xs|
  {
    if xs == [] then Some(([], u))
    else
      match Do(u, xs[0])
      case None => None
      case Some((out, v)) =>
        match RunPaged(v, xs[1..])
        case None => None
        case Some((outs, w)) => Some(([out] + outs, w))
  }

  function RunFlat(m: seq<byte>, xs: seq<Access>): (r: (seq<seq<byte>>, seq<byte>))
    requires |m| == MANAGED_END
    decreases |xs|
  {
    if xs == [] then ([], m)
    else
      var (out, m1) := FlatDo(m, xs[0]);
      var (outs, m2) := RunFlat(m1, xs[1..]);
      ([out] + outs, m2)
  }

  /** Lazy paging refines flat memory: as long as frames last, every read of every run returns what the flat
      memory would, and the frame roles stay exclusive. */
  lemma {:induction false} PagedRefinesFlat(u: Mmu, xs: seq<Access>)
    requires Inv(u) && forall x :: x in xs ==> Fits(x)
    requires RunPaged(u, xs).Some?
    ensures var (outs, v) := RunPaged(u, xs).value;
            Inv(v) && (outs, Flat(v)) == RunFlat(Flat(u), xs)
    decreases |xs|
  {
    if xs != [] {
      assert xs[0] in xs && forall x :: x in xs[1..] ==> x in xs;
      DoRefines(u, xs[0]);
      PagedRefinesFlat(Do(u, xs[0]).value.1, xs[1..]);
    }
  }

  /** At boot nothing of the managed range is mapped, so the flat memory is all zero. */
  ghost predicate Booted(u: Mmu, regions: seq<Region>) {
    && u.pool == UsableFrames(regions)
    && (forall p :: p in u.pages ==> !ManagedPage(p))
    && u.tables == map[]
    && (forall f :: f in UsableFrames(regions) ==> Backed(u, f))
  }

  lemma BootIsZero(u: Mmu, regions: seq<Region>)
    requires GoodRegions(regions) && Booted(u, regions)
    ensures Inv(u) && Flat(u) == seq(MANAGED_END, _ => 0)
  {
    UsableFramesDistinct(regions);
  }

  // ---- Page tables are left alone -------------------------------------------------------------

  /** Every page-table frame is as it was created, apart from the entries, which `pages` and `tables` stand for. */
  ghost predicate TablesClean(u: Mmu) {
    forall t :: t in u.tables ==> u.tables[t] in u.phys && u.phys[u.tables[t]] == ZeroPage()
  }

  lemma {:induction false} EnsureTablesClean(u: Mmu, level: nat, page: nat)
    requires Inv(u) && TablesClean(u) && EnsureTables(u, level, page).Some?
    ensures TablesClean(EnsureTables(u, level, page).value)
    decreases level
  {
    if level > 0 {
      var v := EnsureTable(u, level, page).value;
      EnsureTableKeeps(u, level, page);
      assert u.pool != [] ==> u.pool[0] in u.pool;
      EnsureTablesClean(v, level - 1, page);
    }
  }

  lemma TouchClean(u: Mmu, a: nat)
    requires Inv(u) && TablesClean(u) && Managed(a) && Touch(u, a).Some?
    ensures TablesClean(Touch(u, a).value)
  {
    if a / PAGE !in u.pages {
      var u1 := u.(pool := u.pool[1..]);
      PopKeeps(u);
      assert TablesClean(u1);
      EnsureTablesClean(u1, 3, a / PAGE);
      ReadyToMap(u, a / PAGE);
    }
  }

  lemma {:induction false} TouchRangeClean(u: Mmu, a: nat, n: nat)
    requires Inv(u) && TablesClean(u) && InRange(a, n) && TouchRange(u, a, n).Some?
    ensures TablesClean(TouchRange(u, a, n).value)
    decreases n
  {
    if n > 0 {
      TouchKeeps(u, a);
      TouchClean(u, a);
      var k := PAGE - a % PAGE;
      if n > k { TouchRangeClean(Touch(u, a).value, a + k, n - k); }
    }
  }

  lemma PokeByteClean(u: Mmu, a: nat, b: byte)
    requires Inv(u) && TablesClean(u) && Mapped(u, a / PAGE)
    ensures TablesClean(u.(phys := ByteSet(u.pages, u.phys, a, b)))
  {
  }

  lemma {:induction false} PokeClean(u: Mmu, a: nat, bs: seq<byte>)
    requires Inv(u) && TablesClean(u) && InRange(a, |bs|) && Covered(u, a, |bs|)
    ensures TablesClean(Poke(u, a, bs))
    decreases |bs|
  {
    if bs != [] {
      assert Mapped(u, a / PAGE);
      PokeByteFlat(u, a, bs[0]);
      PokeByteClean(u, a, bs[0]);
      var v := u.(phys := ByteSet(u.pages, u.phys, a, bs[0]));
      forall b: nat | a + 1 <= b < a + |bs| ensures Mapped(v, b / PAGE) { assert Mapped(u, b / PAGE); }
      PokeClean(v, a + 1, bs[1..]);
    }
  }

  lemma DoClean(u: Mmu, x: Access)
    requires Inv(u) && TablesClean(u) && Fits(x) && Do(u, x).Some?
    ensures TablesClean(Do(u, x).value.1)
  {
    TouchRangeKeeps(u, x.addr, Length(x));
    TouchRangeClean(u, x.addr, Length(x));
    if x.Write? { PokeClean(TouchRange(u, x.addr, Length(x)).value, x.addr, x.bytes); }
  }

  /** Over every run, a frame that becomes a page table is zeroed, and no store ever reaches one. */
  lemma {:induction false} TablesStayClean(u: Mmu, xs: seq<Access>)
    requires Inv(u) && TablesClean(u) && forall x :: x in xs ==> Fits(x)
    requires RunPaged(u, xs).Some?
    ensures TablesClean(RunPaged(u, xs).value.1)
    decreases |xs|
  {
    if xs != [] {
      assert xs[0] in xs && forall x :: x in xs[1..] ==> x in xs;
      DoRefines(u, xs[0]);
      DoClean(u, xs[0]);
      TablesStayClean(Do(u, xs[0]).value.1, xs[1..]);
    }
  }

  // ---- When a fault is fatal ------------------------------------------------------------------

  /** Table frames `map_to` will have to take for `page`. */
  function Missing(tables: set<(nat, nat)>, level: nat, page: nat): (n: nat)
  {
    if level == 0 then 0
    else (if (level, TableIndex(level, page)) in tables then 0 else 1) + Missing(tables, level - 1, page)
  }

  lemma {:induction false} MissingBelow(ts: set<(nat, nat)>, ts': set<(nat, nat)>, level: nat, page: nat)
    requires forall l: nat, i: nat :: l <= level ==> ((l, i) in ts <==> (l, i) in ts')
    ensures Missing(ts, level, page) == Missing(ts', level, page)
  {
    if level > 0 { MissingBelow(ts, ts', level - 1, page); }
  }

  lemma {:induction false} EnsureTablesCost(u: Mmu, level: nat, page: nat)
    ensures EnsureTables(u, level, page).Some? <==> |u.pool| >= Missing(u.tables.Keys, level, page)
    decreases level
  {
    if level > 0 && EnsureTable(u, level, page).Some? {
      var v := EnsureTable(u, level, page).value;
      MissingBelow(u.tables.Keys, v.tables.Keys, level - 1, page);
      EnsureTablesCost(v, level - 1, page);
    }
  }

  lemma {:induction false} EnsureTablesPages(u: Mmu, level: nat, page: nat)
    requires EnsureTables(u, level, page).Some?
    ensures EnsureTables(u, level, page).value.pages == u.pages
    decreases level
  {
    if level > 0 { EnsureTablesPages(EnsureTable(u, level, page).value, level - 1, page); }
  }

  lemma {:induction false} EnsureTablesTake(u: Mmu, level: nat, page: nat)
    requires EnsureTables(u, level, page).Some?
    ensures var k := Missing(u.tables.Keys, level, page);
            k <= |u.pool| && EnsureTables(u, level, page).value.pool == u.pool[k..]
    decreases level
  {
    if level > 0 {
      var v := EnsureTable(u, level, page).value;
      MissingBelow(u.tables.Keys, v.tables.Keys, level - 1, page);
      EnsureTablesTake(v, level - 1, page);
    }
  }

  /** What the handler makes of a fault: it declines exactly what is outside the managed range or already there, panics
      exactly when the frames left do not cover the page and the tables missing on its path, and otherwise maps the
      page to the first of them, the next ones becoming tables; no other mapping changes. */
  lemma FaultIff(u: Mmu, a: nat)
    ensures var (page, k) := (a / PAGE, 1 + Missing(u.tables.Keys, 3, a / PAGE));
            match LazyMap(u, a)
            case Declined => a < 0x1000_0000_0000 || a >= 0x7fff_ffff_f000 || page in u.pages
            case Panicked => 0x1000_0000_0000 <= a < 0x7fff_ffff_f000 && page !in u.pages && |u.pool| < k
            case Handled(v) =>
              && 0x1000_0000_0000 <= a < 0x7fff_ffff_f000 && page !in u.pages && |u.pool| >= k
              && v.pages == u.pages[page := u.pool[0]] && v.pool == u.pool[k..]
  {
    if Managed(a) && a / PAGE !in u.pages {
      FaultPanicsIff(u, a);
      if u.pool != [] && EnsureTables(u.(pool := u.pool[1..]), 3, a / PAGE).Some? {
        EnsureTablesPages(u.(pool := u.pool[1..]), 3, a / PAGE);
        EnsureTablesTake(u.(pool := u.pool[1..]), 3, a / PAGE);
      }
    }
  }

  /** A fault in the managed range panics exactly when the frames left do not cover the page and the tables
      still missing on its path. */
  lemma FaultPanicsIff(u: Mmu, a: nat)
    requires Managed(a) && a / PAGE !in u.pages
    ensures Touch(u, a) == None <==> |u.pool| < 1 + Missing(u.tables.Keys, 3, a / PAGE)
  {
    if u.pool != [] {
      var u1 := u.(pool := u.pool[1..]);
      EnsureTablesCost(u1, 3, a / PAGE);
      if EnsureTables(u1, 3, a / PAGE).Some? { EnsureTablesPages(u1, 3, a / PAGE); }
    }
  }
}
