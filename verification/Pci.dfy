/** The PCI bus scan: buses call functions, bridges call buses, endpoints go into the device map. */
module Pci {
  import opened Wrappers

  datatype Address = Address(segment: nat, bus: nat, device: nat, function_: nat)

  /** What a function's header says. `Absent` is a vendor or device id of FFFF; `info` is everything recorded about an
      endpoint; a bridge forwards the buses from `secondary` to `subordinate`. */
  datatype Header = Absent | Endpoint(info: nat) | Bridge(secondary: nat, subordinate: nat) | Other

  /** Configuration space: which addresses a region maps, the multi-function bit, and the headers. */
  datatype Config = Config(mapped: Address -> bool, multi: Address -> bool, header: Address -> Header)

  type Devices = map<Address, nat>

  const BUSES: nat := 256

  // ---- The scan -------------------------------------------------------------------------------

  /** The addresses `scan_bus` hands to `scan_function` for one device. */
  function DeviceCalls(c: Config, segment: nat, bus: nat, device: nat): (calls: seq<Address>)
  {
    var a := Address(segment, bus, device, 0);
    if !c.mapped(a) then [] else [a] + (if c.multi(a) then FunctionCalls(segment, bus, device, 1) else [])
  }

  function FunctionCalls(segment: nat, bus: nat, device: nat, from: nat): (calls: seq<Address>)
    decreases device, 8 - from
  {
    if from >= 8 then [] else [Address(segment, bus, device, from)] + FunctionCalls(segment, bus, device, from + 1)
  }

  function Calls(c: Config, segment: nat, bus: nat, from: nat := 0): (calls: seq<Address>)
    decreases bus, 32 - from
  {
    if from >= 32 then [] else DeviceCalls(c, segment, bus, from) + Calls(c, segment, bus, from + 1)
  }

  /** `scan_bus`, nested at most `depth` deep; None when that is not deep enough. */
  function ScanBus(c: Config, segment: nat, bus: nat, depth: nat, devices: Devices): (r: Option<Devices>)
    decreases depth, 0, 0
  {
    if depth == 0 then None else ScanCalls(c, Calls(c, segment, bus), depth - 1, devices)
  }

  function ScanCalls(c: Config, calls: seq<Address>, depth: nat, devices: Devices): (r: Option<Devices>)
    decreases depth, 3, |calls|
  {
    if calls == [] then Some(devices)
    else
      match ScanFunction(c, calls[0], depth, devices)
      case None => None
      case Some(more) => ScanCalls(c, calls[1..], depth, more)
  }

  function ScanFunction(c: Config, a: Address, depth: nat, devices: Devices): (r: Option<Devices>)
    decreases depth, 2, 0
  {
    if !c.mapped(a) then Some(devices)
    else
      match c.header(a)
      case Absent => Some(devices)
      case Endpoint(info) => Some(devices[a := info])
      case Bridge(first, last) => ScanBuses(c, a.segment, first, last, depth, devices)
      case Other => Some(devices)
  }

  function ScanBuses(c: Config, segment: nat, first: nat, last: nat, depth: nat, devices: Devices): (r: Option<Devices>)
    decreases depth, 1, last + 1 - first
  {
    if first > last then Some(devices)
    else
      match ScanBus(c, segment, first, depth, devices)
      case None => None
      case Some(more) => ScanBuses(c, segment, first + 1, last, depth, more)
  }

  // ---- The bus graph --------------------------------------------------------------------------

  /** `scan_bus` looks at `a`: its device answers as function 0, and `a` is that or the device has several. */
  predicate Called(c: Config, segment: nat, bus: nat, a: Address) {
    && a.segment == segment && a.bus == bus && a.device < 32 && a.function_ < 8
    && c.mapped(a.(function_ := 0)) && (a.function_ == 0 || c.multi(a.(function_ := 0)))
  }

  ghost predicate Visited(c: Config, segment: nat, bus: nat, a: Address) { Called(c, segment, bus, a) && c.mapped(a) }

  ghost predicate Forwards(c: Config, a: Address, bus: nat) {
    match c.header(a)
    case Bridge(first, last) => first <= bus <= last
    case _ => false
  }

  /** A bridge visited on `x` forwards `y`. */
  ghost predicate Edge(c: Config, segment: nat, x: nat, y: nat) {
    exists a :: Visited(c, segment, x, a) && Forwards(c, a, y)
  }

  ghost predicate Path(c: Config, segment: nat, p: seq<nat>) {
    |p| > 0 && forall i :: 0 <= i < |p| - 1 ==> Edge(c, segment, p[i], p[i + 1])
  }

  ghost predicate PathFrom(c: Config, segment: nat, root: nat, p: seq<nat>) { Path(c, segment, p) && p[0] == root }

  /** Endpoint `a` sits on a bus some path from `root` leads to. */
  ghost predicate Reached(c: Config, segment: nat, root: nat, a: Address) {
    exists p :: PathFrom(c, segment, root, p) && Found(c, segment, p[|p| - 1], a)
  }

  ghost predicate Found(c: Config, segment: nat, bus: nat, a: Address) {
    Visited(c, segment, bus, a) && c.header(a).Endpoint?
  }

  lemma PathCons(c: Config, segment: nat, x: nat, p: seq<nat>)
    requires Path(c, segment, p) && Edge(c, segment, x, p[0])
    ensures Path(c, segment, [x] + p)
  {
    var q := [x] + p;
    forall i | 0 <= i < |q| - 1 ensures Edge(c, segment, q[i], q[i + 1]) {
      if i > 0 { assert Edge(c, segment, p[i - 1], p[i]); }
    }
  }

  lemma PathTail(c: Config, segment: nat, p: seq<nat>)
    requires Path(c, segment, p) && |p| > 1
    ensures Path(c, segment, p[1..]) && Edge(c, segment, p[0], p[1])
  {
    forall i | 0 <= i < |p[1..]| - 1 ensures Edge(c, segment, p[1..][i], p[1..][i + 1]) {
      assert Edge(c, segment, p[i + 1], p[i + 2]);
    }
  }

  lemma {:induction false} FunctionCallsAre(segment: nat, bus: nat, device: nat, from: nat, a: Address)
    ensures a in FunctionCalls(segment, bus, device, from) <==>
            a.segment == segment && a.bus == bus && a.device == device && from <= a.function_ < 8
    decreases 8 - from
  {
    if from < 8 { FunctionCallsAre(segment, bus, device, from + 1, a); }
  }

  lemma {:induction false} CallsFrom(c: Config, segment: nat, bus: nat, from: nat, a: Address)
    ensures a in Calls(c, segment, bus, from) <==> Called(c, segment, bus, a) && from <= a.device
    decreases 32 - from
  {
    if from < 32 {
      FunctionCallsAre(segment, bus, from, 1, a);
      CallsFrom(c, segment, bus, from + 1, a);
      assert a in DeviceCalls(c, segment, bus, from) <==> Called(c, segment, bus, a) && a.device == from;
    }
  }

  /** The nested loops of `scan_bus` make exactly those calls. */
  lemma CallsAre(c: Config, segment: nat, bus: nat)
    ensures forall a :: a in Calls(c, segment, bus) <==> Called(c, segment, bus, a)
  {
    forall a ensures a in Calls(c, segment, bus) <==> Called(c, segment, bus, a) { CallsFrom(c, segment, bus, 0, a); }
  }

  // ---- When the scan comes to an end ----------------------------------------------------------

  /** Some path from `bus` visits exactly `n` buses. */
  ghost predicate Deep(c: Config, segment: nat, bus: nat, n: nat) {
    exists p :: PathFrom(c, segment, bus, p) && |p| == n
  }

  /** A depth is too small exactly when some path is longer than it. */
  lemma {:induction false} TooShallowIff(c: Config, segment: nat, bus: nat, depth: nat, devices: Devices)
    ensures ScanBus(c, segment, bus, depth, devices) == None <==> Deep(c, segment, bus, depth + 1)
    decreases depth, 0, 0
  {
    if depth == 0 {
      assert PathFrom(c, segment, bus, [bus]);
    } else {
      var calls := Calls(c, segment, bus);
      CallsAre(c, segment, bus);
      CallsTooShallow(c, calls, depth - 1, devices);
      if ScanBus(c, segment, bus, depth, devices) == None {
        var a :| a in calls && TooDeepBelow(c, a, depth);
        DeepenPath(c, segment, bus, a, depth);
      }
      if Deep(c, segment, bus, depth + 1) {
        var p :| PathFrom(c, segment, bus, p) && |p| == depth + 1;
        PathTail(c, segment, p);
        var a :| Visited(c, segment, bus, a) && Forwards(c, a, p[1]);
        assert PathFrom(c, segment, p[1], p[1..]);
        assert Deep(c, a.segment, p[1], depth);
        assert TooDeepBelow(c, a, depth);
      }
    }
  }

  /** Function `a` is a bridge to a bus with a path of `n` buses. */
  ghost predicate TooDeepBelow(c: Config, a: Address, n: nat) {
    c.mapped(a) && exists b: nat :: Forwards(c, a, b) && Deep(c, a.segment, b, n)
  }

  ghost predicate SomeTooDeep(c: Config, calls: seq<Address>, n: nat) {
    exists a :: a in calls && TooDeepBelow(c, a, n)
  }

  lemma DeepenPath(c: Config, segment: nat, bus: nat, a: Address, n: nat)
    requires Called(c, segment, bus, a) && TooDeepBelow(c, a, n)
    ensures Deep(c, segment, bus, n + 1)
  {
    var b: nat :| Forwards(c, a, b) && Deep(c, a.segment, b, n);
    var p :| PathFrom(c, segment, b, p) && |p| == n;
    assert Visited(c, segment, bus, a);
    assert Edge(c, segment, bus, b);
    PathCons(c, segment, bus, p);
    assert PathFrom(c, segment, bus, [bus] + p);
  }

  lemma {:induction false} CallsTooShallow(c: Config, calls: seq<Address>, depth: nat, devices: Devices)
    ensures ScanCalls(c, calls, depth, devices) == None <==> SomeTooDeep(c, calls, depth + 1)
    decreases depth, 3, |calls|
  {
    if calls != [] {
      var a := calls[0];
      FunctionTooShallow(c, a, depth, devices);
      var r := ScanFunction(c, a, depth, devices);
      if r.Some? {
        CallsTooShallow(c, calls[1..], depth, r.value);
      }
      assert forall x :: x in calls <==> x == a || x in calls[1..];
    }
  }

  lemma {:induction false} FunctionTooShallow(c: Config, a: Address, depth: nat, devices: Devices)
    ensures ScanFunction(c, a, depth, devices) == None <==> TooDeepBelow(c, a, depth + 1)
    decreases depth, 2, 0
  {
    if c.mapped(a) && c.header(a).Bridge? {
      BusesTooShallow(c, a.segment, c.header(a).secondary, c.header(a).subordinate, depth, devices);
    }
  }

  lemma {:induction false} BusesTooShallow(c: Config, segment: nat, first: nat, last: nat, depth: nat, devices: Devices)
    ensures var n := depth + 1;
            ScanBuses(c, segment, first, last, depth, devices) == None <==>
            exists b: nat :: first <= b <= last && Deep(c, segment, b, n)
    decreases depth, 1, last + 1 - first
  {
    if first <= last {
      TooShallowIff(c, segment, first, depth, devices);
      var r := ScanBus(c, segment, first, depth, devices);
      if r.Some? { BusesTooShallow(c, segment, first + 1, last, depth, r.value); }
    }
  }

  /** A path from `root` that comes back to a bus it has been on. */
  ghost predicate HasCycle(c: Config, segment: nat, root: nat) {
    exists p, i, j :: Loops(c, segment, root, p, i, j)
  }

  ghost predicate Loops(c: Config, segment: nat, root: nat, p: seq<nat>, i: int, j: int) {
    PathFrom(c, segment, root, p) && 0 <= i < j < |p| && p[i] == p[j]
  }

  /** Going round once more. */
  lemma RoundAgain(c: Config, segment: nat, root: nat, p: seq<nat>, i: int, j: int)
    requires Loops(c, segment, root, p, i, j)
    ensures Loops(c, segment, root, p[..j] + p[i..], i, j) && |p[..j] + p[i..]| > |p|
  {
    var q := p[..j] + p[i..];
    forall k | 0 <= k < |q| - 1 ensures Edge(c, segment, q[k], q[k + 1]) {
      if k < j - 1 {
        assert Edge(c, segment, p[k], p[k + 1]);
      } else if k == j - 1 {
        assert Edge(c, segment, p[j - 1], p[j]);
      } else {
        assert Edge(c, segment, p[k - j + i], p[k - j + i + 1]);
      }
    }
  }

  lemma {:induction false} CycleIsDeep(c: Config, segment: nat, root: nat, p: seq<nat>, i: int, j: int, n: nat)
    requires Loops(c, segment, root, p, i, j) && n > 0
    ensures Deep(c, segment, root, n)
    decreases n - |p|
  {
    if n <= |p| {
      assert forall k :: 0 <= k < n - 1 ==> Edge(c, segment, p[..n][k], p[..n][k + 1]);
      assert PathFrom(c, segment, root, p[..n]);
    } else {
      RoundAgain(c, segment, root, p, i, j);
      CycleIsDeep(c, segment, root, p[..j] + p[i..], i, j, n);
    }
  }

  function Elements(p: seq<nat>): (s: set<nat>) { set x | x in p }

  lemma {:induction false} DistinctCount(p: seq<nat>)
    requires forall i, j :: 0 <= i < j < |p| ==> p[i] != p[j]
    ensures |Elements(p)| == |p|
  {
    if p != [] {
      DistinctCount(p[1..]);
      assert Elements(p) == Elements(p[1..]) + {p[0]};
      assert p[0] !in Elements(p[1..]);
    }
  }

  lemma {:induction false} BoundedCount(s: set<nat>, n: nat)
    requires forall x :: x in s ==> x < n
    ensures |s| <= n
  {
    if n == 0 {
      assert s == {};
    } else {
      BoundedCount(s - {n - 1}, n - 1);
      if n - 1 in s { assert |s| == |s - {n - 1}| + 1; } else { assert s - {n - 1} == s; }
    }
  }

  /** Bus numbers are bytes. */
  ghost predicate ByteBuses(c: Config) {
    forall a :: c.header(a).Bridge? ==> c.header(a).subordinate < BUSES
  }

  lemma LongPathsRepeat(c: Config, segment: nat, root: nat, p: seq<nat>)
    requires ByteBuses(c) && root < BUSES && PathFrom(c, segment, root, p) && |p| > BUSES
    ensures HasCycle(c, segment, root)
  {
    forall x | x in Elements(p) ensures x < BUSES {
      var i :| 0 <= i < |p| && p[i] == x;
      if i > 0 {
        assert Edge(c, segment, p[i - 1], p[i]);
        var a :| Visited(c, segment, p[i - 1], a) && Forwards(c, a, p[i]);
      }
    }
    BoundedCount(Elements(p), BUSES);
    if forall i, j :: 0 <= i < j < |p| ==> p[i] != p[j] {
      DistinctCount(p);
    } else {
      var i, j :| 0 <= i < j < |p| && p[i] == p[j];
      assert Loops(c, segment, root, p, i, j);
    }
  }

  /** The scan of a bus comes to an end exactly when no path of bridges from it returns to a bus it has been on; and
      then nesting as deep as there are buses is enough. */
  lemma TerminatesIff(c: Config, segment: nat, root: nat, devices: Devices)
    requires ByteBuses(c) && root < BUSES
    ensures (exists depth :: ScanBus(c, segment, root, depth, devices).Some?) <==> !HasCycle(c, segment, root)
    ensures !HasCycle(c, segment, root) ==> ScanBus(c, segment, root, BUSES, devices).Some?
  {
    if HasCycle(c, segment, root) {
      var p, i, j :| Loops(c, segment, root, p, i, j);
      forall depth: nat ensures ScanBus(c, segment, root, depth, devices) == None {
        CycleIsDeep(c, segment, root, p, i, j, depth + 1);
        TooShallowIff(c, segment, root, depth, devices);
      }
    } else {
      TooShallowIff(c, segment, root, BUSES, devices);
      if Deep(c, segment, root, BUSES + 1) {
        var p :| PathFrom(c, segment, root, p) && |p| == BUSES + 1;
        LongPathsRepeat(c, segment, root, p);
      }
    }
  }

  /** Bridges that only forward higher buses, as firmware numbers them, make no cycle. */
  ghost predicate Upward(c: Config) {
    forall a, b: nat :: c.mapped(a) && Forwards(c, a, b) ==> a.bus < b
  }

  lemma {:induction false} UpwardPath(c: Config, segment: nat, p: seq<nat>, i: int, j: int)
    requires Upward(c) && Path(c, segment, p) && 0 <= i < j < |p|
    ensures p[i] < p[j]
    decreases j
  {
    assert Edge(c, segment, p[j - 1], p[j]);
    var a :| Visited(c, segment, p[j - 1], a) && Forwards(c, a, p[j]);
    if i < j - 1 { UpwardPath(c, segment, p, i, j - 1); }
  }

  lemma UpwardHasNoCycle(c: Config, segment: nat, root: nat)
    requires Upward(c)
    ensures !HasCycle(c, segment, root)
  {
    forall p: seq<nat>, i: int, j: int ensures !Loops(c, segment, root, p, i, j) {
      if Loops(c, segment, root, p, i, j) { UpwardPath(c, segment, p, i, j); }
    }
  }

  // ---- What the scan finds --------------------------------------------------------------------

  /** `r` is `devices` with exactly the endpoints for which `found` holds added, each with its own information. */
  ghost predicate Adds(c: Config, devices: Devices, r: Devices, found: Address -> bool) {
    forall a :: (a in r <==> a in devices || found(a))
             && (a in r ==> if found(a) then c.header(a).Endpoint? && r[a] == c.header(a).info else r[a] == devices[a])
  }

  ghost predicate FoundBelow(c: Config, a: Address, x: Address) {
    c.mapped(a) && ((c.header(a).Endpoint? && x == a)
                    || exists b: nat :: Forwards(c, a, b) && Reached(c, a.segment, b, x))
  }

  ghost predicate FoundAmong(c: Config, calls: seq<Address>, x: Address) {
    exists a :: a in calls && FoundBelow(c, a, x)
  }

  lemma AddsSame(c: Config, d: Devices, r: Devices, f: Address -> bool, g: Address -> bool)
    requires Adds(c, d, r, f) && forall a :: f(a) <==> g(a)
    ensures Adds(c, d, r, g)
  {
  }

  lemma {:induction false} BusFinds(c: Config, segment: nat, bus: nat, depth: nat, devices: Devices)
    requires ScanBus(c, segment, bus, depth, devices).Some?
    ensures Adds(c, devices, ScanBus(c, segment, bus, depth, devices).value, a => Reached(c, segment, bus, a))
    decreases depth, 0, 0
  {
    var calls := Calls(c, segment, bus);
    CallsAre(c, segment, bus);
    CallsFind(c, calls, depth - 1, devices);
    forall x ensures Reached(c, segment, bus, x) <==> FoundAmong(c, calls, x) {
      ReachedStep(c, segment, bus, x);
    }
    AddsSame(c, devices, ScanBus(c, segment, bus, depth, devices).value,
             x => FoundAmong(c, calls, x), x => Reached(c, segment, bus, x));
  }

  /** What is reached from a bus is what is found below the functions on it. */
  lemma ReachedStep(c: Config, segment: nat, bus: nat, x: Address)
    ensures Reached(c, segment, bus, x) <==> exists a :: Called(c, segment, bus, a) && FoundBelow(c, a, x)
  {
    if Reached(c, segment, bus, x) {
      var p :| PathFrom(c, segment, bus, p) && Found(c, segment, p[|p| - 1], x);
      if |p| == 1 {
        assert FoundBelow(c, x, x);
      } else {
        PathTail(c, segment, p);
        var a :| Visited(c, segment, bus, a) && Forwards(c, a, p[1]);
        assert PathFrom(c, segment, p[1], p[1..]) && p[1..][|p[1..]| - 1] == p[|p| - 1];
        assert Reached(c, a.segment, p[1], x);
        assert FoundBelow(c, a, x);
      }
    }
    if a :| Called(c, segment, bus, a) && FoundBelow(c, a, x) {
      if c.header(a).Endpoint? {
        assert PathFrom(c, segment, bus, [bus]) && Found(c, segment, [bus][0], x);
      } else {
        var b: nat :| Forwards(c, a, b) && Reached(c, segment, b, x);
        var p :| PathFrom(c, segment, b, p) && Found(c, segment, p[|p| - 1], x);
        assert Visited(c, segment, bus, a);
        PathCons(c, segment, bus, p);
        assert PathFrom(c, segment, bus, [bus] + p) && ([bus] + p)[|p|] == p[|p| - 1];
      }
    }
  }

  lemma {:induction false} CallsFind(c: Config, calls: seq<Address>, depth: nat, devices: Devices)
    requires ScanCalls(c, calls, depth, devices).Some?
    ensures Adds(c, devices, ScanCalls(c, calls, depth, devices).value, x => FoundAmong(c, calls, x))
    decreases depth, 3, |calls|
  {
    if calls != [] {
      var more := ScanFunction(c, calls[0], depth, devices).value;
      FunctionFinds(c, calls[0], depth, devices);
      CallsFind(c, calls[1..], depth, more);
      assert forall a :: a in calls <==> a == calls[0] || a in calls[1..];
      AddsBoth(c, devices, more, ScanCalls(c, calls, depth, devices).value,
               x => FoundBelow(c, calls[0], x), x => FoundAmong(c, calls[1..], x), x => FoundAmong(c, calls, x));
    }
  }

  lemma AddsBoth(c: Config, d0: Devices, d1: Devices, d2: Devices,
                 f: Address -> bool, g: Address -> bool, h: Address -> bool)
    requires Adds(c, d0, d1, f) && Adds(c, d1, d2, g) && forall a :: h(a) <==> f(a) || g(a)
    ensures Adds(c, d0, d2, h)
  {
  }

  lemma {:induction false} FunctionFinds(c: Config, a: Address, depth: nat, devices: Devices)
    requires ScanFunction(c, a, depth, devices).Some?
    ensures Adds(c, devices, ScanFunction(c, a, depth, devices).value, x => FoundBelow(c, a, x))
    decreases depth, 2, 0
  {
    if c.mapped(a) && c.header(a).Bridge? {
      BusesFind(c, a.segment, c.header(a).secondary, c.header(a).subordinate, depth, devices);
    }
  }

  lemma {:induction false} BusesFind(c: Config, segment: nat, first: nat, last: nat, depth: nat, devices: Devices)
    requires ScanBuses(c, segment, first, last, depth, devices).Some?
    ensures Adds(c, devices, ScanBuses(c, segment, first, last, depth, devices).value,
                 x => exists b: nat :: first <= b <= last && Reached(c, segment, b, x))
    decreases depth, 1, last + 1 - first
  {
    if first <= last {
      var more := ScanBus(c, segment, first, depth, devices).value;
      BusFinds(c, segment, first, depth, devices);
      BusesFind(c, segment, first + 1, last, depth, more);
      AddsBoth(c, devices, more, ScanBuses(c, segment, first, last, depth, devices).value,
               x => Reached(c, segment, first, x),
               x => exists b: nat :: first + 1 <= b <= last && Reached(c, segment, b, x),
               x => exists b: nat :: first <= b <= last && Reached(c, segment, b, x));
    }
  }

  // ---- Segments -------------------------------------------------------------------------------

  /** The buses `scan_segment` starts from: eight if the host bridge has several functions, otherwise bus 0. */
  function Roots(c: Config, segment: nat): (last: nat)
  {
    var host := Address(segment, 0, 0, 0);
    if c.mapped(host) && c.multi(host) then 7 else 0
  }

  /** `resolve`: the segments one after the other. */
  function Resolve(c: Config, segments: seq<nat>, depth: nat, devices: Devices): (r: Option<Devices>)
    decreases |segments|
  {
    if segments == [] then Some(devices)
    else
      match ScanBuses(c, segments[0], 0, Roots(c, segments[0]), depth, devices)
      case None => None
      case Some(more) => Resolve(c, segments[1..], depth, more)
  }

  /** The scan of a segment starts at bus 0 and, if the host bridge is there and has several functions, at buses 1 to 7
      as well. */
  ghost predicate IsRoot(c: Config, segment: nat, bus: nat) {
    var host := Address(segment, 0, 0, 0);
    bus == 0 || (bus < 8 && c.mapped(host) && c.multi(host))
  }

  /** Endpoint `a` is reached from a root of its segment. */
  ghost predicate Present(c: Config, segments: seq<nat>, a: Address) {
    exists segment :: segment in segments && PresentIn(c, segment, a)
  }

  ghost predicate PresentIn(c: Config, segment: nat, a: Address) {
    exists root: nat :: IsRoot(c, segment, root) && Reached(c, segment, root, a)
  }

  lemma {:induction false} ResolveFinds(c: Config, segments: seq<nat>, depth: nat, devices: Devices)
    requires Resolve(c, segments, depth, devices).Some?
    ensures Adds(c, devices, Resolve(c, segments, depth, devices).value, a => Present(c, segments, a))
    decreases |segments|
  {
    if segments != [] {
      var s := segments[0];
      var more := ScanBuses(c, s, 0, Roots(c, s), depth, devices).value;
      BusesFind(c, s, 0, Roots(c, s), depth, devices);
      AddsSame(c, devices, more,
               x => exists b: nat :: 0 <= b <= Roots(c, s) && Reached(c, s, b, x), x => PresentIn(c, s, x));
      ResolveFinds(c, segments[1..], depth, more);
      assert forall x :: x in segments <==> x == s || x in segments[1..];
      AddsBoth(c, devices, more, Resolve(c, segments, depth, devices).value,
               a => PresentIn(c, s, a), a => Present(c, segments[1..], a), a => Present(c, segments, a));
    }
  }

  lemma {:induction false} ResolveDeepEnough(c: Config, segments: seq<nat>, depth: nat, devices: Devices)
    ensures var n := depth + 1;
            Resolve(c, segments, depth, devices).Some? <==>
            forall s, root: nat :: s in segments && IsRoot(c, s, root) ==> !Deep(c, s, root, n)
    decreases |segments|
  {
    if segments != [] {
      var s := segments[0];
      BusesTooShallow(c, s, 0, Roots(c, s), depth, devices);
      var r := ScanBuses(c, s, 0, Roots(c, s), depth, devices);
      if r.Some? { ResolveDeepEnough(c, segments[1..], depth, r.value); }
      assert forall x :: x in segments <==> x == s || x in segments[1..];
    }
  }

  /** No root of any segment can reach a cycle of bridges. */
  ghost predicate NoCycles(c: Config, segments: seq<nat>) {
    forall s, root: nat :: s in segments && IsRoot(c, s, root) ==> !HasCycle(c, s, root)
  }

  /** The whole scan comes to an end exactly if no root of any segment can reach a cycle of bridges. */
  lemma ResolveEndsIff(c: Config, segments: seq<nat>)
    requires ByteBuses(c)
    ensures (exists depth :: Resolve(c, segments, depth, map[]).Some?) <==> NoCycles(c, segments)
  {
    if NoCycles(c, segments) {
      ResolveExact(c, segments);
    } else {
      var s, root: nat :| s in segments && IsRoot(c, s, root) && HasCycle(c, s, root);
      forall depth ensures Resolve(c, segments, depth, map[]) == None { CycleNeverEnds(c, segments, depth, s, root); }
    }
  }

  lemma CycleNeverEnds(c: Config, segments: seq<nat>, depth: nat, s: nat, root: nat)
    requires ByteBuses(c) && s in segments && IsRoot(c, s, root) && HasCycle(c, s, root)
    ensures Resolve(c, segments, depth, map[]) == None
  {
    TerminatesIff(c, s, root, map[]);
    TooShallowIff(c, s, root, depth, map[]);
    ResolveDeepEnough(c, segments, depth, map[]);
    var n := depth + 1;
    assert Deep(c, s, root, n);
  }

  /** The scan is exact: if no root of any segment can reach a cycle of bridges, it comes to an end and its keys are
      precisely the endpoints on buses reachable from the roots, each with its own information, however often nested
      bridges make it scan a bus again. */
  lemma ResolveExact(c: Config, segments: seq<nat>)
    requires ByteBuses(c)
    requires NoCycles(c, segments)
    ensures var r := Resolve(c, segments, BUSES, map[]);
            && r.Some?
            && (forall a :: a in r.value <==> Present(c, segments, a))
            && (forall a :: a in r.value ==> c.header(a) == Endpoint(r.value[a]))
  {
    var n := BUSES + 1;
    forall s, root: nat | s in segments && IsRoot(c, s, root) ensures !Deep(c, s, root, n) {
      TerminatesIff(c, s, root, map[]);
      TooShallowIff(c, s, root, BUSES, map[]);
    }
    ResolveDeepEnough(c, segments, BUSES, map[]);
    ResolveFinds(c, segments, BUSES, map[]);
  }
}
