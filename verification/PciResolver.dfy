/** The resolver object: the scan's nested loops, filling the device map in place. */
module PciResolver {
  import opened Wrappers
  import opened Pci

  /** `depth` bounds the nesting of the recursion; by `TerminatesIff` there is one whenever the scan ends. */
  class Resolver {
    const config: Config
    var devices: Devices

    constructor (config: Config)
      ensures this.config == config && devices == map[]
    {
      this.config := config;
      devices := map[];
    }

    method ScanFunction(a: Address, ghost depth: nat)
      requires Pci.ScanFunction(config, a, depth, devices).Some?
      modifies this
      ensures Some(devices) == Pci.ScanFunction(config, a, depth, old(devices))
      decreases depth, 2
    {
      if config.mapped(a) {
        var header := config.header(a);
        match header
        case Absent =>
        case Endpoint(info) => devices := devices[a := info];
        case Bridge(first, last) =>
          var bus := first;
          while bus <= last
            invariant Pci.ScanBuses(config, a.segment, bus, last, depth, devices)
                      == Pci.ScanBuses(config, a.segment, first, last, depth, old(devices))
            decreases last + 1 - bus
          {
            ScanBus(a.segment, bus, depth);
            bus := bus + 1;
          }
        case Other =>
      }
    }

    method ScanBus(segment: nat, bus: nat, ghost depth: nat)
      requires Pci.ScanBus(config, segment, bus, depth, devices).Some?
      modifies this
      ensures Some(devices) == Pci.ScanBus(config, segment, bus, depth, old(devices))
      decreases depth, 1
    {
      ghost var goal := Pci.ScanBus(config, segment, bus, depth, devices);
      for device := 0 to 32
        invariant Pci.ScanCalls(config, Calls(config, segment, bus, device), depth - 1, devices) == goal
      {
        ghost var later := Calls(config, segment, bus, device + 1);
        var a := Address(segment, bus, device, 0);
        if config.mapped(a) {
          ghost var others := if config.multi(a) then FunctionCalls(segment, bus, device, 1) else [];
          CallsSplit(a, others, later);
          ScanFunction(a, depth - 1);
          if config.multi(a) {
            for f := 1 to 8
              invariant Pci.ScanCalls(config, FunctionCalls(segment, bus, device, f) + later, depth - 1, devices)
                        == goal
            {
              CallsSplit(Address(segment, bus, device, f), FunctionCalls(segment, bus, device, f + 1), later);
              ScanFunction(Address(segment, bus, device, f), depth - 1);
            }
            assert FunctionCalls(segment, bus, device, 8) + later == later;
          } else {
            assert others + later == later;
          }
        } else {
          assert [] + later == later;
        }
      }
    }

    method ScanSegment(segment: nat, ghost depth: nat)
      requires Pci.ScanBuses(config, segment, 0, Roots(config, segment), depth, devices).Some?
      modifies this
      ensures Some(devices) == Pci.ScanBuses(config, segment, 0, Roots(config, segment), depth, old(devices))
    {
      var host := Address(segment, 0, 0, 0);
      if config.mapped(host) && config.multi(host) {
        for i := 0 to 8
          invariant Pci.ScanBuses(config, segment, i, 7, depth, devices)
                    == Pci.ScanBuses(config, segment, 0, 7, depth, old(devices))
        {
          ScanBus(segment, i, depth);
        }
      } else {
        ScanBus(segment, 0, depth);
      }
    }

    method Run(segments: seq<nat>, ghost depth: nat)
      requires Pci.Resolve(config, segments, depth, devices).Some?
      modifies this
      ensures Some(devices) == Pci.Resolve(config, segments, depth, old(devices))
    {
      for i := 0 to |segments|
        invariant Pci.Resolve(config, segments[i..], depth, devices)
                  == Pci.Resolve(config, segments, depth, old(devices))
      {
        assert segments[i..][0] == segments[i] && segments[i..][1..] == segments[i + 1..];
        ScanSegment(segments[i], depth);
      }
    }
  }

  lemma CallsSplit(a: Address, others: seq<Address>, later: seq<Address>)
    ensures ([a] + others + later)[0] == a && ([a] + others + later)[1..] == others + later
  {
  }
}
