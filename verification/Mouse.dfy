/** The PS/2 mouse: one byte at a time into three-byte packets, packets into positions, positions into events. */
module Mouse {
  import opened Bytes
  import opened Wrappers

  datatype MouseState = MouseState(x: nat, y: nat, left: bool, right: bool, middle: bool)

  datatype Phase = Ack | Idle | WaitByte2(b1: byte) | WaitByte3(b1: byte, b2: byte)

  datatype Mouse = Mouse(phase: Phase, state: MouseState)

  const MAX: nat := 65535

  function Bit(b: nat, i: nat): (r: bool)
  {
    if i == 0 then b % 2 == 1 else Bit(b / 2, i - 1)
  }

  /** Nine-bit two's complement, clamped on overflow. */
  function GetSigned9(overflow: bool, sign: bool, val: byte): (d: int)
    ensures -256 <= d <= 256
    ensures !overflow ==> d == val - (if sign then 256 else 0)
    ensures overflow ==> d == if sign then -256 else 256
  {
    if sign then
      if overflow then -256 else val - 0x100
    else if overflow then 256
    else val
  }

  /** `u16::saturating_add_signed`. */
  function SatAdd(x: nat, d: int): (r: nat)
    ensures r <= MAX && (0 <= x + d <= MAX ==> r == x + d)
  {
    if x + d < 0 then 0 else if x + d > MAX then MAX else x + d
  }

  datatype Packet = Packet(b1: byte, b2: byte, b3: byte)

  function DeltaX(p: Packet): (d: int) { GetSigned9(Bit(p.b1, 6), Bit(p.b1, 4), p.b2) }
  function DeltaY(p: Packet): (d: int) { GetSigned9(Bit(p.b1, 7), Bit(p.b1, 5), p.b3) }

  /** The state after a packet; y grows downwards on screen. */
  function Move(s: MouseState, p: Packet): (s': MouseState)
  {
    MouseState(SatAdd(s.x, DeltaX(p)), SatAdd(s.y, -DeltaY(p)), Bit(p.b1, 0), Bit(p.b1, 1), Bit(p.b1, 2))
  }

  /** `Mouse::new`: the mouse, and the command it wants sent. */
  function New(): (r: (byte, Mouse))
  {
    (0xF4, Mouse(Ack, MouseState(0, 0, false, false, false)))
  }

  /** `Mouse::handle_data`. */
  function Handle(m: Mouse, data: byte): (r: (Mouse, Option<MouseState>))
  {
    match m.phase
    case Ack => (m.(phase := Idle), None)
    case Idle => (if Bit(data, 3) then m.(phase := WaitByte2(data)) else m, None)
    case WaitByte2(b1) => (m.(phase := WaitByte3(b1, data)), None)
    case WaitByte3(b1, b2) =>
      var s := Move(m.state, Packet(b1, b2, data));
      if s != m.state then (Mouse(Idle, s), Some(s)) else (m.(phase := Idle), None)
  }

  /** The whole stream, a byte at a time. */
  function Feed(m: Mouse, bytes: seq<byte>): (r: (Mouse, seq<MouseState>))
    decreases |bytes|
  {
    if bytes == [] then (m, [])
    else
      var (m1, e) := Handle(m, bytes[0]);
      var (m2, es) := Feed(m1, bytes[1..]);
      (m2, Prepend(e, es))
  }

  // ---- The batch reading ----------------------------------------------------------------------

  /** A packet begins with a byte that has bit 3 set. */
  predicate Starts(b: byte) { b / 8 % 2 == 1 }

  /** Skip bytes that cannot begin a packet, otherwise take three; what is left over is an unfinished packet. */
  function Parse(bytes: seq<byte>): (r: (seq<Packet>, seq<byte>))
  {
    if bytes == [] then ([], [])
    else if !Starts(bytes[0]) then Parse(bytes[1..])
    else if |bytes| < 3 then ([], bytes)
    else
      var (ps, rest) := Parse(bytes[3..]);
      ([Packet(bytes[0], bytes[1], bytes[2])] + ps, rest)
  }

  function PhaseOf(rest: seq<byte>): (p: Phase)
  {
    if rest == [] then Idle else if |rest| == 1 then WaitByte2(rest[0]) else WaitByte3(rest[0], rest[1])
  }

  /** Where a list of packets leads. */
  function MoveAll(s: MouseState, ps: seq<Packet>): (s': MouseState)
    decreases |ps|
  {
    if ps == [] then s else MoveAll(Move(s, ps[0]), ps[1..])
  }

  function Change(s: MouseState, s': MouseState): (e: Option<MouseState>)
  {
    if s' != s then Some(s') else None
  }

  /** The states along the way, without repetitions. */
  function Changes(s: MouseState, ps: seq<Packet>): (es: seq<MouseState>)
    decreases |ps|
  {
    if ps == [] then [] else Prepend(Change(s, Move(s, ps[0])), Changes(Move(s, ps[0]), ps[1..]))
  }

  /** A whole packet moves the idle machine by one move. */
  lemma FeedPacket(s: MouseState, bytes: seq<byte>)
    requires |bytes| >= 3 && Starts(bytes[0])
    ensures var p := Packet(bytes[0], bytes[1], bytes[2]);
            var (m, es) := Feed(Mouse(Idle, Move(s, p)), bytes[3..]);
            Feed(Mouse(Idle, s), bytes) == (m, Prepend(Change(s, Move(s, p)), es))
  {
    Bits(bytes[0]);
    var m1 := Mouse(WaitByte2(bytes[0]), s);
    var m2 := Mouse(WaitByte3(bytes[0], bytes[1]), s);
    assert bytes[1..][1..] == bytes[2..] && bytes[2..][1..] == bytes[3..];
    assert Handle(m2, bytes[2]).0 == Mouse(Idle, Move(s, Packet(bytes[0], bytes[1], bytes[2])));
    assert Feed(m1, bytes[1..]) == Feed(m2, bytes[2..]);
  }

  /** The byte-at-a-time machine refines the batch reading, on every stream. */
  lemma {:induction false} FeedIsParse(s: MouseState, bytes: seq<byte>)
    ensures var (ps, rest) := Parse(bytes);
            && |rest| < 3
            && Feed(Mouse(Idle, s), bytes) == (Mouse(PhaseOf(rest), MoveAll(s, ps)), Changes(s, ps))
    decreases |bytes|
  {
    if bytes != [] { Bits(bytes[0]); }
    if bytes == [] {
    } else if !Starts(bytes[0]) {
      FeedIsParse(s, bytes[1..]);
    } else if |bytes| == 1 {
    } else if |bytes| == 2 {
      assert bytes[1..][1..] == [];
      assert Feed(Mouse(WaitByte2(bytes[0]), s), bytes[1..]) == (Mouse(WaitByte3(bytes[0], bytes[1]), s), []);
    } else {
      FeedPacket(s, bytes);
      FeedIsParse(Move(s, Packet(bytes[0], bytes[1], bytes[2])), bytes[3..]);
    }
  }

  /** A new mouse swallows one byte, whatever it is, and then reads packets from the origin with no button down. */
  lemma NewMouseReadsPackets(bytes: seq<byte>)
    requires bytes != []
    ensures var (m, es) := Feed(New().1, bytes);
            var (ps, rest) := Parse(bytes[1..]);
            var origin := MouseState(0, 0, false, false, false);
            m == Mouse(PhaseOf(rest), MoveAll(origin, ps)) && es == Changes(origin, ps)
  {
    FeedIsParse(New().1.state, bytes[1..]);
  }

  // ---- What the bytes mean --------------------------------------------------------------------

  lemma Bits(b: byte)
    ensures Bit(b, 0) == (b % 2 == 1) && Bit(b, 1) == (b / 2 % 2 == 1) && Bit(b, 2) == (b / 4 % 2 == 1)
    ensures Bit(b, 3) == (b / 8 % 2 == 1) && Bit(b, 4) == (b / 16 % 2 == 1) && Bit(b, 5) == (b / 32 % 2 == 1)
    ensures Bit(b, 6) == (b / 64 % 2 == 1) && Bit(b, 7) == (b / 128 % 2 == 1)
  {
    Bits4(b);
    var high := b / 16;
    Bits4(high);
    Nibble(b);
    assert Bit(b, 4) == Bit(high, 0) by { BitUp(b, 0); }
    assert Bit(b, 5) == Bit(high, 1) by { BitUp(b, 1); }
    assert Bit(b, 6) == Bit(high, 2) by { BitUp(b, 2); }
    assert Bit(b, 7) == Bit(high, 3) by { BitUp(b, 3); }
  }

  lemma Nibble(b: nat)
    ensures b / 16 / 2 == b / 32 && b / 16 / 4 == b / 64 && b / 16 / 8 == b / 128
  {
  }

  lemma Bits4(b: nat)
    ensures Bit(b, 0) == (b % 2 == 1) && Bit(b, 1) == (b / 2 % 2 == 1)
    ensures Bit(b, 2) == (b / 4 % 2 == 1) && Bit(b, 3) == (b / 8 % 2 == 1)
  {
    assert b / 2 / 2 == b / 4 && b / 4 / 2 == b / 8;
    assert Bit(b, 2) == Bit(b / 2, 1) && Bit(b, 3) == Bit(b / 2, 2) == Bit(b / 4, 1);
  }

  lemma BitUp(b: nat, i: nat)
    ensures Bit(b, i + 4) == Bit(b / 16, i)
  {
    assert b / 2 / 2 / 2 / 2 == b / 16;
    assert Bit(b, i + 4) == Bit(b / 2, i + 3) == Bit(b / 2 / 2, i + 2) == Bit(b / 2 / 2 / 2, i + 1);
  }

  /** A nine-bit two's complement number: `low` and, worth -256, the sign in the first byte; or 256 either way. */
  function Signed(sign: bool, overflow: bool, low: byte): (d: int)
  {
    if overflow then (if sign then -256 else 256) else low - (if sign then 256 else 0)
  }

  /** To the right. */
  function Right(p: Packet): (d: int) { Signed(p.b1 / 16 % 2 == 1, p.b1 / 64 % 2 == 1, p.b2) }

  /** Down the screen: the mouse counts upwards. */
  function Down(p: Packet): (d: int) { -Signed(p.b1 / 32 % 2 == 1, p.b1 / 128 % 2 == 1, p.b3) }

  /** The buttons are the low bits of the first byte. */
  predicate Pressed(s: MouseState, b1: byte) {
    s.left == (b1 % 2 == 1) && s.right == (b1 / 2 % 2 == 1) && s.middle == (b1 / 4 % 2 == 1)
  }

  function Clamp(v: int): (r: nat) { if v < 0 then 0 else if v > 65535 then 65535 else v }

  /** What a packet means, byte by byte: the buttons are the low bits of the first byte, x moves right and y, which
      counts from the top, down, and both stop at the edges. */
  predicate Moved(s: MouseState, p: Packet, s': MouseState) {
    s'.x == Clamp(s.x + Right(p)) && s'.y == Clamp(s.y + Down(p)) && Pressed(s', p.b1)
  }

  /** Three bytes move the idle machine accordingly, and it reports the new state if it is new. */
  lemma PacketMeans(s: MouseState, p: Packet)
    requires Starts(p.b1)
    ensures var (m, es) := Feed(Mouse(Idle, s), [p.b1, p.b2, p.b3]);
            m.phase == Idle && Moved(s, p, m.state) && es == if m.state == s then [] else [m.state]
  {
    var bytes := [p.b1, p.b2, p.b3];
    FeedPacket(s, bytes);
    assert bytes[3..] == [];
    MoveMeans(s, p);
  }

  lemma MoveMeans(s: MouseState, p: Packet)
    ensures Moved(s, p, Move(s, p))
  {
    Bits(p.b1);
  }

  function Total(ps: seq<Packet>, d: Packet -> int): (sum: int)
  {
    if ps == [] then 0 else Total(ps[..|ps| - 1], d) + d(ps[|ps| - 1])
  }

  lemma {:induction false} MoveAllSnoc(s: MouseState, ps: seq<Packet>, p: Packet)
    ensures MoveAll(s, ps + [p]) == Move(MoveAll(s, ps), p)
    decreases |ps|
  {
    if ps == [] {
      assert [p][1..] == [];
    } else {
      assert (ps + [p])[1..] == ps[1..] + [p];
      MoveAllSnoc(Move(s, ps[0]), ps[1..], p);
    }
  }

  /** No position on the way is off the screen. */
  ghost predicate Within(v: int, ps: seq<Packet>, d: Packet -> int) {
    forall i :: 0 <= i <= |ps| ==> 0 <= v + Total(ps[..i], d) <= 65535
  }

  lemma WithinBefore(v: int, ps: seq<Packet>, d: Packet -> int)
    requires ps != [] && Within(v, ps, d)
    ensures Within(v, ps[..|ps| - 1], d) && 0 <= v + Total(ps, d) <= 65535
  {
    assert ps[..|ps|] == ps;
    var ps' := ps[..|ps| - 1];
    forall i | 0 <= i <= |ps'| ensures 0 <= v + Total(ps'[..i], d) <= 65535 { assert ps'[..i] == ps[..i]; }
  }

  lemma TotalSnoc(ps: seq<Packet>, d: Packet -> int)
    requires ps != []
    ensures Total(ps, d) == Total(ps[..|ps| - 1], d) + d(ps[|ps| - 1])
  {
  }

  lemma {:induction false} RightAddsUp(s: MouseState, ps: seq<Packet>)
    requires Within(s.x, ps, Right)
    ensures MoveAll(s, ps).x == s.x + Total(ps, Right)
    decreases |ps|
  {
    if ps != [] {
      WithinBefore(s.x, ps, Right);
      RightAddsUp(s, ps[..|ps| - 1]);
      LastMove(s, ps);
      TotalSnoc(ps, Right);
    }
  }

  lemma {:induction false} DownAddsUp(s: MouseState, ps: seq<Packet>)
    requires Within(s.y, ps, Down)
    ensures MoveAll(s, ps).y == s.y + Total(ps, Down)
    decreases |ps|
  {
    if ps != [] {
      WithinBefore(s.y, ps, Down);
      DownAddsUp(s, ps[..|ps| - 1]);
      LastMove(s, ps);
      TotalSnoc(ps, Down);
    }
  }

  /** What the last packet does to where the others led. */
  lemma LastMove(s: MouseState, ps: seq<Packet>)
    requires ps != []
    ensures Moved(MoveAll(s, ps[..|ps| - 1]), ps[|ps| - 1], MoveAll(s, ps))
  {
    var ps', p := ps[..|ps| - 1], ps[|ps| - 1];
    assert ps' + [p] == ps;
    MoveAllSnoc(s, ps', p);
    MoveMeans(MoveAll(s, ps'), p);
  }

  /** On every byte stream: where no edge is hit, x and y are the start plus all movements; the buttons are those of
      the last whole packet. */
  lemma StreamMeans(s: MouseState, bytes: seq<byte>)
    ensures var s' := Feed(Mouse(Idle, s), bytes).0.state;
            var ps := Parse(bytes).0;
            && (Within(s.x, ps, Right) ==> s'.x == s.x + Total(ps, Right))
            && (Within(s.y, ps, Down) ==> s'.y == s.y + Total(ps, Down))
            && (ps != [] ==> Pressed(s', ps[|ps| - 1].b1))
  {
    FeedIsParse(s, bytes);
    var ps := Parse(bytes).0;
    if Within(s.x, ps, Right) { RightAddsUp(s, ps); }
    if Within(s.y, ps, Down) { DownAddsUp(s, ps); }
    if ps != [] { LastMove(s, ps); }
  }

  /** Coordinates stay in range, and one packet moves each by at most 256. */
  lemma {:induction false} MoveAllInRange(s: MouseState, ps: seq<Packet>)
    requires s.x <= MAX && s.y <= MAX
    ensures var s' := MoveAll(s, ps);
            && s'.x <= MAX && s'.y <= MAX
            && -256 * |ps| <= s'.x - s.x <= 256 * |ps| && -256 * |ps| <= s'.y - s.y <= 256 * |ps|
    decreases |ps|
  {
    if ps != [] { MoveAllInRange(Move(s, ps[0]), ps[1..]); }
  }

  /** Every event differs from the one before it (the first, from the initial state), and the last one (or the
      initial state) is where the packets lead. */
  lemma {:induction false} ChangesAreChanges(s: MouseState, ps: seq<Packet>)
    ensures var es := [s] + Changes(s, ps);
            && es[|es| - 1] == MoveAll(s, ps)
            && forall i :: 0 <= i < |es| - 1 ==> es[i] != es[i + 1]
    decreases |ps|
  {
    if ps != [] {
      var s1 := Move(s, ps[0]);
      ChangesAreChanges(s1, ps[1..]);
      var es1 := [s1] + Changes(s1, ps[1..]);
      if s1 != s {
        assert [s] + Changes(s, ps) == [s] + es1;
        assert forall i :: 0 < i < |es1| ==> ([s] + es1)[i] == es1[i - 1];
      }
    }
  }

  /** The machine, updated in place. */
  class MousePort {
    var phase: Phase
    var mouseState: MouseState

    ghost function View(): (m: Mouse)
      reads this
    {
      Mouse(phase, mouseState)
    }

    constructor ()
      ensures View() == New().1
    {
      phase := Ack;
      mouseState := MouseState(0, 0, false, false, false);
    }

    method HandleData(data: byte) returns (r: Option<MouseState>)
      modifies this
      ensures (View(), r) == Handle(old(View()), data)
    {
      match phase
      case Ack =>
        phase := Idle;
        r := None;
      case Idle =>
        if Bit(data, 3) { phase := WaitByte2(data); }
        r := None;
      case WaitByte2(b1) =>
        phase := WaitByte3(b1, data);
        r := None;
      case WaitByte3(b1, b2) =>
        var dx := GetSigned9(Bit(b1, 6), Bit(b1, 4), b2);
        var dy := GetSigned9(Bit(b1, 7), Bit(b1, 5), data);
        var newState := MouseState(SatAdd(mouseState.x, dx), SatAdd(mouseState.y, -dy),
                                   Bit(b1, 0), Bit(b1, 1), Bit(b1, 2));
        phase := Idle;
        if newState != mouseState {
          mouseState := newState;
          r := Some(newState);
        } else {
          r := None;
        }
    }
  }
}
