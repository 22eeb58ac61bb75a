/** The 8042 driver object: polled waits, the set-up dialogue and the interrupt entry, against hardware that may answer
    anything. */
module Ps2Driver {
  import opened Bytes
  import opened Wrappers
  import opened Arith
  import opened Ps2Port
  import opened Ps2Controller
  import Mouse

  /** The value the next register read returns, given everything that has happened. */
  type Hardware = seq<Io> -> byte

  /** A status with room for a byte (bit 1 clear), and one with a byte to read (bit 0 set). */
  predicate CanWrite(x: Io) { x.ReadStatus? && x.value / 2 % 2 == 0 }
  predicate CanRead(x: Io) { x.ReadStatus? && x.value % 2 == 1 }

  /** What the event before must have been for `x` to be allowed. */
  predicate Follows(prev: Option<Io>, x: Io) {
    match x
    case WriteCmd(_) => prev.Some? && CanWrite(prev.value)
    case WriteData(_) => prev.Some? && CanWrite(prev.value)
    case ReadData(_) => prev.Some? && CanRead(prev.value)
    case ReadStatus(_) => true
  }

  function Last(io: seq<Io>): (x: Option<Io>) { if io == [] then None else Some(io[|io| - 1]) }

  /** Each write immediately follows a status read with bit 1 clear, each data read one with bit 0 set. */
  ghost predicate Disciplined(io: seq<Io>) {
    forall i :: 0 <= i < |io| ==> Follows(Last(io[..i]), io[i])
  }

  /** What has been written, in order. */
  function Writes(io: seq<Io>): (ws: seq<Io>)
  {
    if io == [] then []
    else
      var last := io[|io| - 1];
      if last.WriteCmd? || last.WriteData? then Writes(io[..|io| - 1]) + [last] else Writes(io[..|io| - 1])
  }

  /** Commands the controller answers with one byte. */
  predicate IsQuery(c: byte) { c in [0x20, 0xAA, 0xAB, 0xA9] }

  /** The query still waiting for its answer, and the answers so far. */
  datatype Talk = Talk(pending: Option<byte>, answers: seq<(byte, byte)>)

  function TalkOf(io: seq<Io>): (t: Talk)
  {
    if io == [] then Talk(None, [])
    else Heard(TalkOf(io[..|io| - 1]), io[|io| - 1])
  }

  function Heard(t: Talk, x: Io): (t': Talk)
  {
    match x
    case WriteCmd(c) => t.(pending := if IsQuery(c) then Some(c) else None)
    case ReadData(b) => if t.pending.Some? then Talk(None, t.answers + [(t.pending.value, b)]) else t
    case _ => t
  }

  /** `io'` is `io` followed by at most `n` status reads; the last one decides. */
  ghost predicate Polled(io: seq<Io>, io': seq<Io>, n: nat) {
    && |io| <= |io'| <= |io| + n && io'[..|io|] == io
    && (forall i :: |io| <= i < |io'| ==> io'[i].ReadStatus?)
  }

  lemma {:induction false} PolledIsQuiet(io: seq<Io>, io': seq<Io>, n: nat)
    requires Polled(io, io', n)
    ensures Writes(io') == Writes(io) && TalkOf(io') == TalkOf(io)
    ensures Disciplined(io) ==> Disciplined(io')
    decreases |io'|
  {
    if |io'| == |io| {
      assert io' == io;
    } else {
      var shorter := io'[..|io'| - 1];
      assert shorter[..|io|] == io;
      PolledIsQuiet(io, shorter, n);
      OneMore(shorter, io'[|io'| - 1]);
      assert shorter + [io'[|io'| - 1]] == io';
    }
  }

  /** One more event. */
  lemma OneMore(io: seq<Io>, x: Io)
    ensures Writes(io + [x]) == if x.WriteCmd? || x.WriteData? then Writes(io) + [x] else Writes(io)
    ensures TalkOf(io + [x]) == Heard(TalkOf(io), x)
    ensures Disciplined(io) && Follows(Last(io), x) ==> Disciplined(io + [x])
  {
    var io' := io + [x];
    assert io'[..|io|] == io;
    if Disciplined(io) && Follows(Last(io), x) {
      forall i | 0 <= i < |io'| ensures Follows(Last(io'[..i]), io'[i]) {
        if i < |io| { assert io'[..i] == io[..i]; }
      }
    }
  }

  /** The last polls show what a wait gives up on: 1000 without room, or 100000 without data. */
  ghost predicate GaveUp(io: seq<Io>) { AllFull(io, 1000) || AllEmpty(io, 100000) }

  ghost predicate AllFull(io: seq<Io>, n: nat) {
    |io| >= n && forall i :: |io| - n <= i < |io| ==> io[i].ReadStatus? && !CanWrite(io[i])
  }

  ghost predicate AllEmpty(io: seq<Io>, n: nat) {
    |io| >= n && forall i :: |io| - n <= i < |io| ==> io[i].ReadStatus? && !CanRead(io[i])
  }

  // ---- Flushing -------------------------------------------------------------------------------

  /** What `flush` leaves behind if the hardware runs dry within `rounds` rounds. */
  function Drained(hw: Hardware, io: seq<Io>, rounds: nat): (r: Option<seq<Io>>)
    decreases rounds
  {
    if rounds == 0 then None
    else
      var seen := io + [ReadStatus(hw(io))];
      if !CanRead(ReadStatus(hw(io))) then Some(seen) else Drained(hw, seen + [ReadData(hw(seen))], rounds - 1)
  }

  /** The bound does not matter once it is large enough: `flush` ends exactly if some bound will do, always alike. */
  lemma {:induction false} DrainedStable(hw: Hardware, io: seq<Io>, rounds: nat, more: nat)
    requires Drained(hw, io, rounds).Some? && rounds <= more
    ensures Drained(hw, io, more) == Drained(hw, io, rounds)
    decreases rounds
  {
    var seen := io + [ReadStatus(hw(io))];
    if CanRead(ReadStatus(hw(io))) { DrainedStable(hw, seen + [ReadData(hw(seen))], rounds - 1, more - 1); }
  }

  /** At some point so far the hardware was being flushed and did not run dry within `rounds` rounds. */
  ghost predicate Flooded(hw: Hardware, io: seq<Io>, rounds: nat) {
    exists k :: 0 <= k <= |io| && Drained(hw, io[..k], rounds) == None
  }

  /** The answer to query `c`, if the last query was `c` and has been answered. */
  function LastAnswer(io: seq<Io>, c: byte): (r: Option<byte>)
  {
    var as_ := TalkOf(io).answers;
    if as_ != [] && as_[|as_| - 1].0 == c then Some(as_[|as_| - 1].1) else None
  }

  datatype Error = TimedOut | SelfTestFailed | NoPorts

  /** `Stuck`: the hardware kept offering data to flush for as many rounds as it was given. */
  datatype Result = Ok | Err(error: Error) | Stuck

  // ---- The dialogue ---------------------------------------------------------------------------

  /** The bytes the controller answers in the course of `init`. */
  datatype Answers = Answers(config1: byte, config2: byte, test1: byte, test2: byte, config3: byte)

  function FromBits(bits: seq<bool>): (b: nat)
  {
    if bits == [] then 0 else (if bits[0] then 1 else 0) + 2 * FromBits(bits[1..])
  }

  function Bits(b: byte): (bits: seq<bool>)
    ensures |bits| == 8 && forall i :: 0 <= i < 8 ==> bits[i] == Mouse.Bit(b, i)
  {
    seq(8, i requires 0 <= i < 8 => Mouse.Bit(b, i))
  }

  /** Reading a bit of an assembled number gives the bit put in. */
  lemma {:induction false} BitOfFromBits(bits: seq<bool>, i: nat)
    requires i < |bits|
    ensures Mouse.Bit(FromBits(bits), i) == bits[i]
    decreases |bits|
  {
    if i > 0 { BitOfFromBits(bits[1..], i - 1); }
  }

  function AsByte(bits: seq<bool>): (b: byte)
    requires |bits| == 8
  {
    assert FromBits(bits) < 256 by {
      FromBitsSmall(bits);
      assert Pow2(4) == 16;
    }
    FromBits(bits)
  }

  lemma {:induction false} FromBitsSmall(bits: seq<bool>)
    ensures FromBits(bits) < Pow2(|bits|)
  {
    if bits != [] { FromBitsSmall(bits[1..]); }
  }

  /** Interrupts and translation off: `config & !(bit 0 | bit 1 | bit 6)`. */
  function Quiesced(config: byte): (r: byte)
    ensures forall i :: 0 <= i < 8 ==> Mouse.Bit(r, i) == (i !in {0, 1, 6} && Mouse.Bit(config, i))
  {
    var bits := Bits(config)[0 := false][1 := false][6 := false];
    assert forall i :: 0 <= i < 8 ==> Mouse.Bit(AsByte(bits), i) == bits[i] by {
      forall i | 0 <= i < 8 ensures Mouse.Bit(AsByte(bits), i) == bits[i] { BitOfFromBits(bits, i); }
    }
    AsByte(bits)
  }

  /** `config |= bit` for each working port. */
  function WithInterrupts(config: byte, one: bool, two: bool): (r: byte)
    ensures forall i :: 0 <= i < 8 ==>
      Mouse.Bit(r, i) == (Mouse.Bit(config, i) || (i == 0 && one) || (i == 1 && two))
  {
    var bits := Bits(config)[0 := Mouse.Bit(config, 0) || one][1 := Mouse.Bit(config, 1) || two];
    assert forall i :: 0 <= i < 8 ==> Mouse.Bit(AsByte(bits), i) == bits[i] by {
      forall i | 0 <= i < 8 ensures Mouse.Bit(AsByte(bits), i) == bits[i] { BitOfFromBits(bits, i); }
    }
    AsByte(bits)
  }

  /** Bit 5 of the configuration says that the second port is off. There is one if the bit was set to begin with and
      enabling the port has cleared it. */
  predicate MayHaveSecond(a: Answers) { a.config1 / 32 % 2 == 1 }
  predicate HasSecond(a: Answers) { MayHaveSecond(a) && a.config2 / 32 % 2 == 0 }
  predicate Works1(a: Answers) { a.test1 == 0x00 }
  predicate Works2(a: Answers) { HasSecond(a) && a.test2 == 0x00 }

  /** Everything a successful `init` writes. */
  function Script(a: Answers): (ws: seq<Io>)
  {
    [WriteCmd(0xAD), WriteCmd(0xA7), WriteCmd(0x20), WriteCmd(0x60), WriteData(Quiesced(a.config1)), WriteCmd(0xAA)]
    + (if MayHaveSecond(a) then [WriteCmd(0xA8), WriteCmd(0x20), WriteCmd(0xA7)] else [])
    + [WriteCmd(0xAB)]
    + (if HasSecond(a) then [WriteCmd(0xA9)] else [])
    + [WriteCmd(0x20), WriteCmd(0x60), WriteData(WithInterrupts(a.config3, Works1(a), Works2(a)))]
    + (if Works1(a) then [WriteCmd(0xAE), WriteData(0xFF)] else [])
    + (if Works2(a) then [WriteCmd(0xA8), WriteCmd(0xD4), WriteData(0xFF)] else [])
  }

  /** Which answer belongs to which query, up to the interface tests. */
  function Tests(a: Answers): (qs: seq<(byte, byte)>)
  {
    [(0x20, a.config1), (0xAA, 0x55)]
    + (if MayHaveSecond(a) then [(0x20, a.config2)] else [])
    + [(0xAB, a.test1)]
    + (if HasSecond(a) then [(0xA9, a.test2)] else [])
  }

  /** The same for all of `init`. */
  function Dialogue(a: Answers): (qs: seq<(byte, byte)>)
  {
    Tests(a) + [(0x20, a.config3)]
  }

  class Driver8042 {
    const hw: Hardware
    const decode: Decoder
    var io: seq<Io>
    var port1: Option<Port>
    var port2: Option<Port>

    constructor (hw: Hardware, decode: Decoder)
      ensures io == [] && port1 == None && port2 == None && this.hw == hw && this.decode == decode
    {
      this.hw, this.decode := hw, decode;
      io, port1, port2 := [], None, None;
    }

    /** What the traffic shows when the set-up fails. */
    ghost predicate Explained(r: Result, rounds: nat)
      reads this
    {
      && (r == Err(TimedOut) ==> GaveUp(io))
      && (r == Err(SelfTestFailed) ==> GaveUp(io) || LastAnswer(io, 0xAA) !in {None, Some(0x55)})
      && (r == Stuck ==> Flooded(hw, io, rounds))
    }

    method PollStatus() returns (b: byte)
      modifies this`io
      ensures b == hw(old(io)) && io == old(io) + [ReadStatus(b)]
      ensures Mouse.Bit(b, 0) == (b % 2 == 1) && Mouse.Bit(b, 1) == (b / 2 % 2 == 1)
    {
      b := hw(io);
      Mouse.Bits(b);
      io := io + [ReadStatus(b)];
    }

    /** `wait_out`: at most 1000 polls; it succeeds on the first that shows room. */
    method WaitOut() returns (ok: bool)
      modifies this`io
      ensures Polled(old(io), io, 1000) && |io| > |old(io)|
      ensures ok == CanWrite(io[|io| - 1]) && forall i :: |old(io)| <= i < |io| - 1 ==> !CanWrite(io[i])
      ensures !ok ==> |io| == |old(io)| + 1000
    {
      var spins := 0;
      var b := PollStatus();
      while Mouse.Bit(b, 1)
        invariant spins < 1000 && Polled(old(io), io, 1000) && |io| == |old(io)| + spins + 1
        invariant io[|io| - 1] == ReadStatus(b) && forall i :: |old(io)| <= i < |io| - 1 ==> !CanWrite(io[i])
        invariant Mouse.Bit(b, 1) == !CanWrite(ReadStatus(b))
        decreases 1000 - spins
      {
        spins := spins + 1;
        if spins == 1000 { return false; }
        b := PollStatus();
      }
      ok := true;
    }

    /** `wait_in`: at most 100000 polls. */
    method WaitIn() returns (ok: bool)
      modifies this`io
      ensures Polled(old(io), io, 100000) && |io| > |old(io)|
      ensures ok == CanRead(io[|io| - 1]) && forall i :: |old(io)| <= i < |io| - 1 ==> !CanRead(io[i])
      ensures !ok ==> |io| == |old(io)| + 100000
    {
      var spins := 0;
      var b := PollStatus();
      while !Mouse.Bit(b, 0)
        invariant spins < 100000 && Polled(old(io), io, 100000) && |io| == |old(io)| + spins + 1
        invariant io[|io| - 1] == ReadStatus(b) && forall i :: |old(io)| <= i < |io| - 1 ==> !CanRead(io[i])
        decreases 100000 - spins
      {
        spins := spins + 1;
        if spins == 100000 { return false; }
        b := PollStatus();
      }
      ok := true;
    }

    method Command(c: byte) returns (ok: bool)
      requires Disciplined(io)
      modifies this`io
      ensures Disciplined(io)
      ensures !ok ==> GaveUp(io)
      ensures ok ==> Writes(io) == Writes(old(io)) + [WriteCmd(c)] && TalkOf(io) == Heard(TalkOf(old(io)), WriteCmd(c))
    {
      ok := WaitOut();
      PolledIsQuiet(old(io), io, 1000);
      if ok {
        OneMore(io, WriteCmd(c));
        io := io + [WriteCmd(c)];
      }
    }

    method Data(b: byte) returns (ok: bool)
      requires Disciplined(io)
      modifies this`io
      ensures Disciplined(io)
      ensures !ok ==> GaveUp(io)
      ensures ok ==> Writes(io) == Writes(old(io)) + [WriteData(b)] && TalkOf(io) == TalkOf(old(io))
    {
      ok := WaitOut();
      PolledIsQuiet(old(io), io, 1000);
      if ok {
        OneMore(io, WriteData(b));
        io := io + [WriteData(b)];
      }
    }

    method Answer() returns (r: Option<byte>)
      requires Disciplined(io)
      modifies this`io
      ensures Disciplined(io) && Writes(io) == Writes(old(io))
      ensures r == None ==> GaveUp(io)
      ensures r.Some? ==> TalkOf(io) == Heard(TalkOf(old(io)), ReadData(r.value))
    {
      var ok := WaitIn();
      PolledIsQuiet(old(io), io, 100000);
      if !ok { return None; }
      var b := hw(io);
      OneMore(io, ReadData(b));
      io := io + [ReadData(b)];
      r := Some(b);
    }

    /** One round of `flush`: whether there was a byte to throw away. */
    method FlushRound(ghost rounds: nat) returns (more: bool)
      requires Disciplined(io) && TalkOf(io).pending == None && rounds > 0
      modifies this`io
      ensures Disciplined(io) && Writes(io) == Writes(old(io)) && TalkOf(io) == TalkOf(old(io))
      ensures old(io) <= io && Drained(hw, old(io), rounds) == if more then Drained(hw, io, rounds - 1) else Some(io)
    {
      var b := PollStatus();
      OneMore(old(io), ReadStatus(b));
      more := Mouse.Bit(b, 0);
      if more {
        var d := hw(io);
        OneMore(io, ReadData(d));
        io := io + [ReadData(d)];
      }
    }

    /** `flush`, given up after `rounds` rounds: with hardware that never runs dry it would not return. */
    method Flush(rounds: nat) returns (dry: bool)
      requires Disciplined(io) && TalkOf(io).pending == None
      modifies this`io
      ensures Disciplined(io) && Writes(io) == Writes(old(io)) && TalkOf(io) == TalkOf(old(io))
      ensures match Drained(hw, old(io), rounds)
              case Some(after) => dry && io == after
              case None => !dry && Flooded(hw, io, rounds)
    {
      ghost var goal := Drained(hw, io, rounds);
      for i := 0 to rounds
        invariant Disciplined(io) && Writes(io) == Writes(old(io)) && TalkOf(io) == TalkOf(old(io))
        invariant Drained(hw, io, rounds - i) == goal && old(io) <= io
      {
        var more := FlushRound(rounds - i);
        if !more { return true; }
      }
      assert io[..|old(io)|] == old(io);
      dry := false;
    }

    /** A query and its answer. */
    method Ask(c: byte) returns (r: Option<byte>)
      requires Disciplined(io) && IsQuery(c)
      modifies this`io
      ensures Disciplined(io)
      ensures r == None ==> GaveUp(io)
      ensures r.Some? ==> Writes(io) == Writes(old(io)) + [WriteCmd(c)]
                          && TalkOf(io) == Talk(None, TalkOf(old(io)).answers + [(c, r.value)])
    {
      var ok := Command(c);
      if !ok { return None; }
      r := Answer();
    }

    /** Enable and disable the second port and see whether the configuration notices. */
    method ProbeSecond() returns (config: Option<byte>)
      requires Disciplined(io) && TalkOf(io).pending == None
      modifies this`io
      ensures Disciplined(io)
      ensures config == None ==> GaveUp(io)
      ensures config.Some? ==>
                && Writes(io) == Writes(old(io)) + [WriteCmd(0xA8), WriteCmd(0x20), WriteCmd(0xA7)]
                && TalkOf(io) == Talk(None, TalkOf(old(io)).answers + [(0x20, config.value)])
    {
      var on := Command(0xA8);
      if !on { return None; }
      config := Ask(0x20);
      if config == None { return; }
      var off := Command(0xA7);
      if !off { return None; }
    }

    /** From the self-test answer to the two interface tests. */
    method TestPorts(rounds: nat, a0: Answers) returns (r: Result, a: Answers)
      requires Disciplined(io) && TalkOf(io).pending == None
      modifies this`io
      ensures Disciplined(io) && r != Err(NoPorts)
      ensures Explained(r, rounds)
      ensures r == Ok ==>
                && a == a0.(config2 := a.config2, test1 := a.test1, test2 := a.test2)
                && Writes(io) == Writes(old(io))
                                 + (if MayHaveSecond(a) then [WriteCmd(0xA8), WriteCmd(0x20), WriteCmd(0xA7)] else [])
                                 + [WriteCmd(0xAB)]
                                 + (if HasSecond(a) then [WriteCmd(0xA9)] else [])
                && TalkOf(io) == Talk(None, TalkOf(old(io)).answers
                                            + (if MayHaveSecond(a) then [(0x20, a.config2)] else [])
                                            + [(0xAB, a.test1)]
                                            + (if HasSecond(a) then [(0xA9, a.test2)] else []))
    {
      a := a0;
      Mouse.Bits(a.config1);
      var hasSecond := false;
      if Mouse.Bit(Quiesced(a.config1), 5) {
        var config := ProbeSecond();
        if config == None { return Err(TimedOut), a; }
        a := a.(config2 := config.value);
        Mouse.Bits(a.config2);
        hasSecond := !Mouse.Bit(a.config2, 5);
      }
      var dry := Flush(rounds);
      if !dry { return Stuck, a; }
      var test1 := Ask(0xAB);
      if test1 == None { return Err(TimedOut), a; }
      a := a.(test1 := test1.value);
      if hasSecond {
        var test2 := Ask(0xA9);
        if test2 == None { return Err(TimedOut), a; }
        a := a.(test2 := test2.value);
      }
      r := Ok;
    }

    /** Switch the interrupts of the working ports on. */
    method Enable(a: Answers) returns (config: Option<byte>)
      requires Disciplined(io)
      modifies this`io
      ensures Disciplined(io)
      ensures config == None ==> GaveUp(io)
      ensures config.Some? ==>
                && Writes(io) == Writes(old(io)) + [WriteCmd(0x20), WriteCmd(0x60),
                                                    WriteData(WithInterrupts(config.value, Works1(a), Works2(a)))]
                && TalkOf(io) == Talk(None, TalkOf(old(io)).answers + [(0x20, config.value)])
    {
      config := Ask(0x20);
      if config == None { return; }
      var ok := Command(0x60);
      if !ok { return None; }
      ok := Data(WithInterrupts(config.value, Works1(a), Works2(a)));
      if !ok { return None; }
    }

    /** Reset the device behind port 1. */
    method Start1() returns (ok: bool)
      requires Disciplined(io)
      modifies this`io, this`port1
      ensures Disciplined(io)
      ensures !ok ==> GaveUp(io)
      ensures ok ==> Writes(io) == Writes(old(io)) + [WriteCmd(0xAE), WriteData(0xFF)]
                     && TalkOf(io).answers == TalkOf(old(io)).answers && port1 == Some(Waiting)
    {
      port1 := Some(Waiting);
      ok := Command(0xAE);
      if !ok { return; }
      ok := Data(0xFF);
    }

    /** Reset the device behind port 2. */
    method Start2() returns (ok: bool)
      requires Disciplined(io)
      modifies this`io, this`port2
      ensures Disciplined(io)
      ensures !ok ==> GaveUp(io)
      ensures ok ==> Writes(io) == Writes(old(io)) + [WriteCmd(0xA8), WriteCmd(0xD4), WriteData(0xFF)]
                     && TalkOf(io).answers == TalkOf(old(io)).answers && port2 == Some(Waiting)
    {
      port2 := Some(Waiting);
      ok := Command(0xA8);
      if !ok { return; }
      ok := Command(0xD4);
      if !ok { return; }
      ok := Data(0xFF);
    }

    /** Disable the controller and read its configuration. */
    method Disable(rounds: nat) returns (r: Result, config: byte)
      requires io == []
      modifies this`io
      ensures Disciplined(io) && r != Err(NoPorts)
      ensures Explained(r, rounds)
      ensures r == Ok ==>
                && Writes(io) == [WriteCmd(0xAD), WriteCmd(0xA7), WriteCmd(0x20)]
                && TalkOf(io) == Talk(None, [(0x20, config)])
    {
      config := 0;
      var ok := Command(0xAD);
      if !ok { return Err(TimedOut), config; }
      ok := Command(0xA7);
      if !ok { return Err(TimedOut), config; }
      var dry := Flush(rounds);
      if !dry { return Stuck, config; }
      var c := Ask(0x20);
      if c == None { return Err(TimedOut), config; }
      config := c.value;
      r := Ok;
    }

    /** From disabling the controller to the self-test. */
    method SelfTest(rounds: nat) returns (r: Result, config: byte)
      requires io == []
      modifies this`io
      ensures Disciplined(io) && r != Err(NoPorts)
      ensures Explained(r, rounds)
      ensures r == Ok ==>
                && Writes(io) == [WriteCmd(0xAD), WriteCmd(0xA7), WriteCmd(0x20), WriteCmd(0x60),
                                  WriteData(Quiesced(config)), WriteCmd(0xAA)]
                && TalkOf(io) == Talk(None, [(0x20, config), (0xAA, 0x55)])
    {
      r, config := Disable(rounds);
      if r != Ok { return; }
      var ok := Command(0x60);
      if !ok { return Err(TimedOut), config; }
      ok := Data(Quiesced(config));
      if !ok { return Err(TimedOut), config; }
      ok := Command(0xAA);
      if !ok { return Err(TimedOut), config; }
      var test := Answer();
      if test != Some(0x55) { return Err(SelfTestFailed), config; }
    }

    /** `init` on a new driver. Whatever the hardware does, every access is preceded by the right status read; on Ok
        the writes and the queries are exactly the script the answers call for, the ports present are exactly those
        whose interface test returned 0, and there is at least one; it fails for want of ports only if no test
        returned 0, by timing out only after as many polls as a wait allows, and in the self-test only so or by
        another answer than 55. */
    method Init(rounds: nat) returns (r: Result, a: Answers)
      requires io == [] && port1 == None && port2 == None
      modifies this
      ensures Disciplined(io)
      ensures r == Ok ==>
                && Writes(io) == Script(a) && TalkOf(io).answers == Dialogue(a)
                && (port1.Some? <==> Works1(a)) && (port2.Some? <==> Works2(a)) && (port1.Some? || port2.Some?)
                && (port1.Some? ==> port1.value == Waiting) && (port2.Some? ==> port2.value == Waiting)
      ensures r == Err(NoPorts) ==>
                TalkOf(io).answers == Tests(a) && !Works1(a) && !Works2(a) && port1 == None && port2 == None
      ensures r == Err(SelfTestFailed) ==> port1 == None && port2 == None
      ensures Explained(r, rounds)
    {
      a := Answers(0, 0, 0, 0, 0);
      var config;
      r, config := SelfTest(rounds);
      if r != Ok { return; }
      a := a.(config1 := config);
      r, a := TestPorts(rounds, a);
      if r != Ok { return; }
      if !Works1(a) && !Works2(a) { return Err(NoPorts), a; }
      var c := Enable(a);
      if c == None { return Err(TimedOut), a; }
      a := a.(config3 := c.value);
      if Works1(a) {
        var ok := Start1();
        if !ok { return Err(TimedOut), a; }
      }
      if Works2(a) {
        var ok := Start2();
        if !ok { return Err(TimedOut), a; }
      }
    }

    /** `interrupt`, with the registers read as the hardware has it. */
    method Interrupt(irq: Irq) returns (change: Option<Change>)
      modifies this
      ensures var x := Signal(irq, hw(old(io)), hw(old(io) + [ReadStatus(hw(old(io)))]));
              (Ports(port1, port2), io, change)
              == var (d, more, c) := Ps2Controller.Interrupt(Ports(old(port1), old(port2)), x, decode);
                 (d, old(io) + more, c)
    {
      var status := PollStatus();
      if !Mouse.Bit(status, if irq == Irq1 then 0 else 5) { return None; }
      var data := hw(io);
      io := io + [ReadData(data)];
      ghost var seen := [ReadStatus(status), ReadData(data)];
      assert io == old(io) + seen;
      var port := if irq == Irq1 then port1 else port2;
      if port == None { return None; }
      var (p, command, c) := Handle(port.value, data, decode);
      if irq == Irq1 { port1 := Some(p); } else { port2 := Some(p); }
      if command.Some? {
        if irq == Irq12 { io := io + [WriteCmd(0xD4)]; }
        io := io + [WriteData(command.value)];
      }
      assert io == old(io) + (seen + Reply(irq, command));
      change := c;
    }
  }
}
