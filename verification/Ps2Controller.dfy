/** The 8042 controller driver: interrupts for two ports, and the polled set-up dialogue. Every access to the
    controller is an event of a trace; what the hardware answers may depend on the whole trace so far. */
module Ps2Controller {
  import opened Bytes
  import opened Wrappers
  import opened Ps2Port
  import Mouse

  datatype Io = ReadStatus(value: byte) | ReadData(value: byte) | WriteCmd(value: byte) | WriteData(value: byte)

  datatype Irq = Irq1 | Irq12

  // ---- Interrupts -----------------------------------------------------------------------------

  datatype Ports = Ports(port1: Option<Port>, port2: Option<Port>)

  /** An interrupt, with what the status and data registers will read. */
  datatype Signal = Signal(irq: Irq, status: byte, data: byte)

  predicate HasData(x: Signal) { Mouse.Bit(x.status, if x.irq == Irq1 then 0 else 5) }

  /** `Driver8042::interrupt`: the ports after it, the register accesses, the change it reports. */
  function Interrupt(d: Ports, x: Signal, decode: Decoder): (r: (Ports, seq<Io>, Option<Change>))
  {
    if !HasData(x) then (d, [ReadStatus(x.status)], None)
    else
      var seen := [ReadStatus(x.status), ReadData(x.data)];
      var port := if x.irq == Irq1 then d.port1 else d.port2;
      match port
      case None => (d, seen, None)
      case Some(p) =>
        var (p', command, change) := Handle(p, x.data, decode);
        var d' := if x.irq == Irq1 then d.(port1 := Some(p')) else d.(port2 := Some(p'));
        (d', seen + Reply(x.irq, command), change)
  }

  /** A reply to port 2 has to be announced. */
  function Reply(irq: Irq, command: Option<byte>): (io: seq<Io>)
  {
    match command
    case None => []
    case Some(b) => if irq == Irq12 then [WriteCmd(0xD4), WriteData(b)] else [WriteData(b)]
  }

  datatype Run = Run(ports: Ports, io: seq<Io>, changes: seq<(Irq, Change)>)

  function RunSignals(d: Ports, xs: seq<Signal>, decode: Decoder): (r: Run)
    decreases |xs|
  {
    if xs == [] then Run(d, [], [])
    else
      var (d1, io, change) := Interrupt(d, xs[0], decode);
      var rest := RunSignals(d1, xs[1..], decode);
      Run(rest.ports, io + rest.io,
          Prepend(if change.Some? then Some((xs[0].irq, change.value)) else None, rest.changes))
  }

  /** A byte is there for port 1 if bit 0 of the status is set, for port 2 if bit 5 is. */
  predicate Offered(x: Signal) { if x.irq == Irq1 then x.status % 2 == 1 else x.status / 32 % 2 == 1 }

  lemma OfferedIs(x: Signal)
    ensures Offered(x) == HasData(x)
  {
    Mouse.Bits(x.status);
  }

  /** The bytes read for one port. */
  function BytesFor(irq: Irq, xs: seq<Signal>): (bytes: seq<byte>)
  {
    if xs == [] then []
    else if xs[0].irq == irq && Offered(xs[0]) then [xs[0].data] + BytesFor(irq, xs[1..])
    else BytesFor(irq, xs[1..])
  }

  /** Where the controller routes the data written: to port 2 right after D4, to port 1 otherwise. */
  function Routed(io: seq<Io>): (r: (seq<byte>, seq<byte>))
  {
    if io == [] then ([], [])
    else if |io| >= 2 && io[0] == WriteCmd(0xD4) && io[1].WriteData? then
      var rest := Routed(io[2..]);
      (rest.0, [io[1].value] + rest.1)
    else
      var rest := Routed(io[1..]);
      if io[0].WriteData? then ([io[0].value] + rest.0, rest.1) else rest
  }

  function ChangesOf(irq: Irq, changes: seq<(Irq, Change)>): (r: seq<Change>)
  {
    if changes == [] then []
    else if changes[0].0 == irq then [changes[0].1] + ChangesOf(irq, changes[1..])
    else ChangesOf(irq, changes[1..])
  }

  /** What the port on its own would do with its bytes; an absent port does nothing. */
  function Alone(p: Option<Port>, bytes: seq<byte>, decode: Decoder): (r: (Option<Port>, seq<byte>, seq<Change>))
  {
    match p
    case None => (None, [], [])
    case Some(q) => var r := Feed(q, bytes, decode); (Some(r.port), r.commands, r.changes)
  }

  lemma RoutedSkip(b: Io, io: seq<Io>)
    requires !b.WriteData? && b != WriteCmd(0xD4)
    ensures Routed([b] + io) == Routed(io)
  {
    assert ([b] + io)[1..] == io;
  }

  lemma RoutedReply(irq: Irq, command: Option<byte>, io: seq<Io>)
    ensures var (r1, r2) := Routed(io);
            Routed(Reply(irq, command) + io)
            == if irq == Irq1 then (Prepend(command, r1), r2) else (r1, Prepend(command, r2))
  {
    if command == None {
      assert [] + io == io;
    } else if irq == Irq1 {
      assert ([WriteData(command.value)] + io)[1..] == io;
    } else {
      assert ([WriteCmd(0xD4), WriteData(command.value)] + io)[2..] == io;
    }
  }

  /** Routing of one interrupt followed by more traffic. */
  lemma RoutedInterrupt(x: Signal, reply: seq<Io>, io: seq<Io>)
    ensures Routed([ReadStatus(x.status), ReadData(x.data)] + reply + io) == Routed(reply + io)
    ensures Routed([ReadStatus(x.status)] + io) == Routed(io)
    ensures Routed([ReadStatus(x.status), ReadData(x.data)] + io) == Routed(io)
  {
    RoutedSkip(ReadStatus(x.status), io);
    RoutedSkip(ReadData(x.data), io);
    RoutedSkip(ReadData(x.data), reply + io);
    RoutedSkip(ReadStatus(x.status), [ReadData(x.data)] + io);
    RoutedSkip(ReadStatus(x.status), [ReadData(x.data)] + (reply + io));
    assert [ReadStatus(x.status), ReadData(x.data)] + io == [ReadStatus(x.status)] + ([ReadData(x.data)] + io);
    assert [ReadStatus(x.status), ReadData(x.data)] + reply + io
        == [ReadStatus(x.status)] + ([ReadData(x.data)] + (reply + io));
  }

  /** Port isolation: for every interleaving of the two interrupts, each port is where its own bytes alone would have
      taken it, the data routed to it is exactly what it asked to send, and the changes reported under its interrupt
      are exactly its own. */
  lemma {:induction false} PortsIsolated(d: Ports, xs: seq<Signal>, decode: Decoder)
    ensures var r := RunSignals(d, xs, decode);
            && (r.ports.port1, Routed(r.io).0, ChangesOf(Irq1, r.changes))
               == Alone(d.port1, BytesFor(Irq1, xs), decode)
            && (r.ports.port2, Routed(r.io).1, ChangesOf(Irq12, r.changes))
               == Alone(d.port2, BytesFor(Irq12, xs), decode)
    decreases |xs|
  {
    if xs != [] {
      var x := xs[0];
      var (d1, io, change) := Interrupt(d, x, decode);
      var rest := RunSignals(d1, xs[1..], decode);
      PortsIsolated(d1, xs[1..], decode);
      OfferedIs(x);
      var port := if x.irq == Irq1 then d.port1 else d.port2;
      if HasData(x) && port.Some? {
        var command := Handle(port.value, x.data, decode).1;
        RoutedReply(x.irq, command, rest.io);
        RoutedInterrupt(x, Reply(x.irq, command), rest.io);
        OneByte(port.value, x.data, BytesFor(x.irq, xs[1..]), decode);
      } else {
        RoutedInterrupt(x, [], rest.io);
      }
    }
  }

  lemma OneByte(p: Port, b: byte, bytes: seq<byte>, decode: Decoder)
    ensures var (p1, command, change) := Handle(p, b, decode);
            var r := Feed(p1, bytes, decode);
            Feed(p, [b] + bytes, decode) == Outcome(r.port, Prepend(command, r.commands), Prepend(change, r.changes))
  {
    assert ([b] + bytes)[1..] == bytes;
  }
}
