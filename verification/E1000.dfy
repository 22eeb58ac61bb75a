/** The e1000 receive ring: the NIC writes packets back from its head up to (not including) the tail the host gave
    it, the host takes them out one token at a time. Section 3.2.6 of Intel's PCI/PCI-X Family of Gigabit Ethernet
    Controllers Software Developer's Manual. */
module E1000 {
  import opened Wrappers
  import opened Arith

  const RING: nat := 32

  /** `dd` is the descriptor-done bit; `packet` is what the buffer and length describe. */
  datatype Descriptor<T> = Descriptor(dd: bool, packet: T)

  /** A receive token: which descriptor, and what its buffer held when `recv` handed it out. */
  datatype Token<T> = Token(id: nat, packet: T)

  /** The last two fields record the packets written back and those consumed. */
  datatype State<T> = State(
    ring: seq<Descriptor<T>>, head: nat, tail: nat, rxCur: nat, token: Option<Token<T>>,
    written: seq<T>, delivered: seq<T>)

  datatype Step<T> = WriteBack(packet: T) | Recv | RecvEnd | Drop

  predicate Shaped<T>(s: State<T>) {
    |s.ring| == RING && s.head < RING && s.rxCur < RING && (s.token.Some? ==> s.token.value.id < RING)
  }

  /** One token at a time; the assertion of `recv_end` is `EndOk`. */
  predicate Enabled<T>(s: State<T>, t: Step<T>) {
    Shaped(s) &&
    match t
    case WriteBack(_) => s.head != s.tail
    case Recv => s.token == None
    case RecvEnd => s.token.Some?
    case Drop => s.token.Some?
  }

  predicate EndOk<T>(s: State<T>, id: nat) { id < |s.ring| && s.ring[id].dd }

  function Next<T>(s: State<T>, t: Step<T>): (s': State<T>)
    requires Enabled(s, t)
  {
    match t
    case WriteBack(packet) =>
      s.(ring := s.ring[s.head := Descriptor(true, packet)], head := Inc(s.head, RING), written := s.written + [packet])
    case Recv =>
      if s.ring[s.rxCur].dd then s.(token := Some(Token(s.rxCur, s.ring[s.rxCur].packet))) else s
    case RecvEnd =>
      var k := s.token.value;
      s.(ring := s.ring[k.id := s.ring[k.id].(dd := false)], tail := s.rxCur, rxCur := Inc(s.rxCur, RING),
         token := None, delivered := s.delivered + [k.packet])
    case Drop => s.(token := None)
  }

  /** The ring as `E1000::new` sets it up, whatever the buffers hold. */
  ghost predicate Fresh<T>(s: State<T>) {
    && |s.ring| == RING && (forall i :: 0 <= i < RING ==> !s.ring[i].dd)
    && s.head == 0 && s.tail == RING - 1 && s.rxCur == 0 && s.token == None
    && s.written == [] && s.delivered == []
  }

  /** None: a step was taken out of turn. */
  function Run<T>(s: State<T>, ts: seq<Step<T>>): (r: Option<State<T>>)
  {
    if ts == [] then Some(s)
    else
      match Run(s, ts[..|ts| - 1])
      case None => None
      case Some(u) => if Enabled(u, ts[|ts| - 1]) then Some(Next(u, ts[|ts| - 1])) else None
  }

  /** How many slots after `cur` slot `d` comes, going round the ring. */
  function Offset(cur: nat, d: nat): (n: nat)
    requires cur < RING && d < RING
    ensures n < RING
  {
    if cur <= d then d - cur else d + RING - cur
  }

  /** Slot `d` is done exactly if it is one of the `w - r` slots from `rxCur` on, and then holds that packet. */
  ghost predicate SlotOk<T>(s: State<T>, d: nat)
    requires Shaped(s) && d < RING && |s.delivered| <= |s.written|
  {
    var w, r := |s.written|, |s.delivered|;
    && (s.ring[d].dd <==> Offset(s.rxCur, d) < w - r)
    && (s.ring[d].dd ==> s.ring[d].packet == s.written[r + Offset(s.rxCur, d)])
  }

  /** Head and tail are fixed by the counts, every slot is as it should be, and a token is for the first packet not
      consumed. */
  ghost predicate Inv<T>(s: State<T>) {
    var w, r := |s.written|, |s.delivered|;
    && Shaped(s) && s.tail < RING
    && r <= w && s.rxCur == r % RING
    && Offset(s.rxCur, s.head) == w - r && Offset(s.rxCur, s.tail) == RING - 1
    && (forall d :: 0 <= d < RING ==> SlotOk(s, d))
    && s.delivered <= s.written
    && (s.token.Some? ==> r < w && s.token.value == Token(s.rxCur, s.written[r]))
  }

  lemma WriteBackKeeps<T>(s: State<T>, packet: T)
    requires Inv(s) && Enabled(s, WriteBack(packet))
    ensures Inv(Next(s, WriteBack(packet)))
  {
    var s' := Next(s, WriteBack(packet));
    forall d | 0 <= d < RING ensures SlotOk(s', d) { assert SlotOk(s, d); }
  }

  lemma RecvEndKeeps<T>(s: State<T>)
    requires Inv(s) && Enabled(s, RecvEnd)
    ensures EndOk(s, s.token.value.id) && Inv(Next(s, RecvEnd))
  {
    var s' := Next(s, RecvEnd);
    assert SlotOk(s, s.rxCur);
    forall d | 0 <= d < RING ensures SlotOk(s', d) { assert SlotOk(s, d); }
  }

  lemma NextKeeps<T>(s: State<T>, t: Step<T>)
    requires Inv(s) && Enabled(s, t)
    ensures Inv(Next(s, t)) && (t.RecvEnd? ==> EndOk(s, s.token.value.id))
  {
    match t
    case WriteBack(packet) => WriteBackKeeps(s, packet);
    case RecvEnd => RecvEndKeeps(s);
    case Recv =>
      assert SlotOk(s, s.rxCur);
      forall d | 0 <= d < RING ensures SlotOk(Next(s, t), d) { assert SlotOk(s, d); }
    case Drop =>
      forall d | 0 <= d < RING ensures SlotOk(Next(s, t), d) { assert SlotOk(s, d); }
  }

  lemma {:induction false} RunKeeps<T>(s: State<T>, ts: seq<Step<T>>)
    requires Fresh(s) && Run(s, ts).Some?
    ensures Inv(Run(s, ts).value)
  {
    if ts == [] {
      forall d | 0 <= d < RING ensures SlotOk(s, d) {}
    } else {
      RunKeeps(s, ts[..|ts| - 1]);
      NextKeeps(Run(s, ts[..|ts| - 1]).value, ts[|ts| - 1]);
    }
  }

  /** The packets the NIC wrote back. */
  function Arrived<T>(ts: seq<Step<T>>): (packets: seq<T>)
  {
    if ts == [] then []
    else Arrived(ts[..|ts| - 1]) + if ts[|ts| - 1].WriteBack? then [ts[|ts| - 1].packet] else []
  }

  /** The packets of the tokens the host has ended. */
  ghost function Consumed<T>(s: State<T>, ts: seq<Step<T>>): (packets: seq<T>)
    requires Run(s, ts).Some?
  {
    if ts == [] then []
    else
      var u := Run(s, ts[..|ts| - 1]).value;
      Consumed(s, ts[..|ts| - 1]) + if ts[|ts| - 1].RecvEnd? then [u.token.value.packet] else []
  }

  /** The packets the host has been given and has ended are those that arrived, in order and without gaps; the rest are
      in the ring. */
  lemma {:induction false} ConsumedInOrder<T>(s: State<T>, ts: seq<Step<T>>)
    requires Fresh(s) && Run(s, ts).Some?
    ensures var v := Run(s, ts).value; v.written == Arrived(ts) && v.delivered == Consumed(s, ts)
    ensures Consumed(s, ts) <= Arrived(ts) && |Arrived(ts)| - |Consumed(s, ts)| < RING
  {
    RunKeeps(s, ts);
    if ts != [] { ConsumedInOrder(s, ts[..|ts| - 1]); }
  }

  /** Receive-ring correctness, over every interleaving of write-backs and host calls: the tail stays one behind
      `rxCur`, DD is set exactly from `rxCur` up to the head, the assertion in `recv_end` holds whenever a token is
      out, and what has been consumed is an in-order prefix of what was written, the rest still in the ring. */
  lemma RingCorrect<T>(s: State<T>, ts: seq<Step<T>>)
    requires Fresh(s) && Run(s, ts).Some?
    ensures var v := Run(s, ts).value;
            && Shaped(v) && v.rxCur == |v.delivered| % RING && (v.tail + 1) % RING == v.rxCur
            && (forall d :: 0 <= d < RING ==> (EndOk(v, d) <==> Offset(v.rxCur, d) < Offset(v.rxCur, v.head)))
            && (v.token.Some? ==> EndOk(v, v.token.value.id))
            && v.delivered <= v.written && |v.written| - |v.delivered| == Offset(v.rxCur, v.head)
  {
    RunKeeps(s, ts);
    TailBehind(Run(s, ts).value);
    WindowIs(Run(s, ts).value);
  }

  lemma TailBehind<T>(s: State<T>)
    requires Inv(s)
    ensures (s.tail + 1) % RING == s.rxCur
  {
    IncIsMod(s.tail, RING);
  }

  lemma WindowIs<T>(s: State<T>)
    requires Inv(s)
    ensures forall d :: 0 <= d < RING ==> (EndOk(s, d) <==> Offset(s.rxCur, d) < Offset(s.rxCur, s.head))
    ensures s.token.Some? ==> EndOk(s, s.token.value.id)
  {
    forall d | 0 <= d < RING ensures EndOk(s, d) <==> Offset(s.rxCur, d) < Offset(s.rxCur, s.head) {
      assert SlotOk(s, d);
    }
  }

  /** The next `recv` hands out the oldest packet not consumed, and nothing exactly when there is none. */
  lemma RecvOldest<T>(s: State<T>, ts: seq<Step<T>>)
    requires Fresh(s) && Run(s, ts).Some? && Run(s, ts).value.token == None
    ensures var v := Run(s, ts).value;
            Next(v, Recv).token == if |v.delivered| < |v.written|
                                   then Some(Token(v.rxCur, v.written[|v.delivered|])) else None
  {
    RunKeeps(s, ts);
    assert SlotOk(Run(s, ts).value, Run(s, ts).value.rxCur);
  }

  // ---- A second token for the same packet -----------------------------------------------------

  lemma {:induction false} RunFrom<T>(s: State<T>, ts: seq<Step<T>>)
    requires Inv(s) && Run(s, ts).Some?
    ensures var v := Run(s, ts).value; Inv(v) && |v.delivered| >= |s.delivered|
  {
    if ts != [] {
      RunFrom(s, ts[..|ts| - 1]);
      NextKeeps(Run(s, ts[..|ts| - 1]).value, ts[|ts| - 1]);
    }
  }

  /** Packet `r0` and the one `m` laps later share a descriptor; that one is written and not yet consumed. */
  predicate Again(r0: nat, m: nat, r: nat, w: nat) { m >= 1 && r <= r0 + RING * m < w }

  /** A packet after `r0` that shares its descriptor is waiting in the ring. */
  ghost predicate ComesRound(r0: nat, r: nat, w: nat) { exists m: nat :: Again(r0, m, r, w) }

  /** The first number from `r` on that shares a slot with `r0`. */
  lemma OffsetIs(r0: nat, r: nat)
    requires r0 < r
    ensures (r + Offset(r % RING, r0 % RING) - r0) % RING == 0
  {
  }

  lemma WaitingIff(r0: nat, r: nat, w: nat)
    requires r0 < r <= w
    ensures Offset(r % RING, r0 % RING) < w - r <==> ComesRound(r0, r, w)
  {
    OffsetIs(r0, r);
    var m := (r + Offset(r % RING, r0 % RING) - r0) / RING;
    if Offset(r % RING, r0 % RING) < w - r {
      assert Again(r0, m, r, w);
    }
  }

  /** `recv` does not remember that a token is out, so two may be out for one packet. After the first has been
      ended, and whatever the NIC and the host have done since, ending the second passes the assertion exactly if a
      later packet is waiting in the same descriptor. */
  lemma SecondTokenIff<T>(s: State<T>, ts: seq<Step<T>>, us: seq<Step<T>>)
    requires Fresh(s) && Run(s, ts).Some? && Run(s, ts).value.token.Some?
    requires Shaped(Run(s, ts).value) && Run(Next(Run(s, ts).value, RecvEnd), us).Some?
    ensures var (u, v) := (Run(s, ts).value, Run(Next(Run(s, ts).value, RecvEnd), us).value);
            EndOk(v, u.token.value.id) <==> ComesRound(|u.delivered|, |v.delivered|, |v.written|)
  {
    RunKeeps(s, ts);
    var u := Run(s, ts).value;
    RecvEndKeeps(u);
    RunFrom(Next(u, RecvEnd), us);
    var v := Run(Next(u, RecvEnd), us).value;
    assert SlotOk(v, u.token.value.id);
    WaitingIff(|u.delivered|, |v.delivered|, |v.written|);
  }

  /** What `recv_end` does to the ring for the holder of a second token. */
  function EndSecond<T>(s: State<T>, k: Token<T>): (s': State<T>)
    requires Shaped(s) && k.id < RING
  {
    s.(ring := s.ring[k.id := s.ring[k.id].(dd := false)], tail := s.rxCur, rxCur := Inc(s.rxCur, RING),
       delivered := s.delivered + [k.packet])
  }

  /** Where it passes, the ring is still in order afterwards exactly if the descriptor was the one the host looks at, no
      other token is out, and the packet waiting in it, which is lost, was the same as the old one. */
  lemma SecondTokenBreaks<T>(s: State<T>, k: Token<T>)
    requires Inv(s) && k.id < RING && EndOk(s, k.id)
    ensures Inv(EndSecond(s, k))
            <==> |s.delivered| < |s.written| && k == Token(s.rxCur, s.written[|s.delivered|]) && s.token == None
  {
    assert SlotOk(s, k.id);
    if k.id != s.rxCur {
      WrongSlot(s, k);
    } else if s.token == None && k.packet == s.written[|s.delivered|] {
      RightSlot(s, k);
    } else if k.packet != s.written[|s.delivered|] {
      assert EndSecond(s, k).delivered[|s.delivered|] == k.packet;
    }
  }

  /** The descriptor the host looked at is left behind, still done. */
  lemma WrongSlot<T>(s: State<T>, k: Token<T>)
    requires Inv(s) && k.id < RING && k.id != s.rxCur && EndOk(s, k.id)
    ensures !Inv(EndSecond(s, k))
  {
    assert SlotOk(s, k.id) && SlotOk(s, s.rxCur);
    assert !SlotOk(EndSecond(s, k), s.rxCur);
  }

  lemma RightSlot<T>(s: State<T>, k: Token<T>)
    requires Inv(s) && s.token == None && |s.delivered| < |s.written|
    requires k == Token(s.rxCur, s.written[|s.delivered|])
    ensures Inv(EndSecond(s, k))
  {
    var s' := EndSecond(s, k);
    forall d | 0 <= d < RING ensures SlotOk(s', d) { assert SlotOk(s, d); }
  }

  /** `j` write-backs of the same packet. */
  function Writes<T>(packet: T, j: nat): (ts: seq<Step<T>>)
  {
    if j == 0 then [] else Writes(packet, j - 1) + [WriteBack(packet)]
  }

  lemma RunOneMore<T>(s: State<T>, ts: seq<Step<T>>, t: Step<T>)
    requires Run(s, ts).Some? && Enabled(Run(s, ts).value, t)
    ensures Run(s, ts + [t]) == Some(Next(Run(s, ts).value, t))
  {
    assert (ts + [t])[..|ts + [t]| - 1] == ts;
  }

  /** As long as there is room, the NIC can go on. */
  lemma {:induction false} WritesRun<T>(s: State<T>, packet: T, j: nat)
    requires Inv(s) && |s.written| - |s.delivered| + j < RING
    ensures Run(s, Writes(packet, j)).Some?
    ensures var v := Run(s, Writes(packet, j)).value;
            Inv(v) && v.token == s.token && v.delivered == s.delivered && |v.written| == |s.written| + j
  {
    if j > 0 {
      WritesRun(s, packet, j - 1);
      var u := Run(s, Writes(packet, j - 1)).value;
      RunOneMore(s, Writes(packet, j - 1), WriteBack(packet));
      WriteBackKeeps(u, packet);
    }
  }

  /** With nothing waiting, one lap does it: 31 packets arrive, one is received, one more arrives. */
  lemma ALapLater<T>(s: State<T>, packet: T)
    requires Inv(s) && s.token == None && |s.written| == |s.delivered|
    ensures var us := Writes(packet, 31) + [Recv] + [RecvEnd] + [WriteBack(packet)];
            && Run(s, us).Some?
            && var v := Run(s, us).value;
               Inv(v) && |v.delivered| == |s.delivered| + 1 && |v.written| == |s.written| + 32
  {
    var ts := Writes(packet, 31);
    WritesRun(s, packet, 31);
    var a := Run(s, ts).value;
    RunOneMore(s, ts, Recv);
    NextKeeps(a, Recv);
    assert SlotOk(a, a.rxCur);
    var b := Next(a, Recv);
    RunOneMore(s, ts + [Recv], RecvEnd);
    RecvEndKeeps(b);
    var c := Next(b, RecvEnd);
    RunOneMore(s, ts + [Recv] + [RecvEnd], WriteBack(packet));
    WriteBackKeeps(c, packet);
  }

  /** So it can happen: with two tokens out for the only packet in the ring, the second end passes after such a lap, and
      the ring goes wrong without a word. */
  lemma SecondTokenCanPass<T>(s: State<T>, ts: seq<Step<T>>, packet: T)
    requires Fresh(s) && Run(s, ts).Some? && Shaped(Run(s, ts).value)
    requires var u := Run(s, ts).value; u.token.Some? && |u.written| == |u.delivered| + 1
    ensures var u := Run(s, ts).value;
            var us := Writes(packet, 31) + [Recv] + [RecvEnd] + [WriteBack(packet)];
            && Run(Next(u, RecvEnd), us).Some?
            && var v := Run(Next(u, RecvEnd), us).value;
               Shaped(v) && EndOk(v, u.token.value.id) && !Inv(EndSecond(v, u.token.value))
  {
    var u := Run(s, ts).value;
    RunKeeps(s, ts);
    RecvEndKeeps(u);
    ALapLater(Next(u, RecvEnd), packet);
    var us := Writes(packet, 31) + [Recv] + [RecvEnd] + [WriteBack(packet)];
    var v := Run(Next(u, RecvEnd), us).value;
    assert Again(|u.delivered|, 1, |v.delivered|, |v.written|);
    SecondTokenIff(s, ts, us);
    ALapApart(|u.delivered|, |v.delivered|);
    WrongSlot(v, u.token.value);
  }

  lemma ALapApart(r0: nat, r: nat)
    requires r == r0 + 2
    ensures r0 % RING != r % RING
  {
  }

  // ---- The host side, in place ----------------------------------------------------------------

  class Receiver<T> {
    var ring: seq<Descriptor<T>>
    var rxCur: nat
    var tailRegister: nat

    ghost function With(s: State<T>): (r: State<T>)
      reads this
    {
      s.(ring := ring, rxCur := rxCur, tail := tailRegister)
    }

    /** Set up with the given buffers and every status cleared. */
    constructor (buffers: seq<T>)
      requires |buffers| == RING
      ensures Fresh(With(State([], 0, 0, 0, None, [], [])))
    {
      ring := seq(RING, i requires 0 <= i < RING => Descriptor(false, buffers[i]));
      rxCur := 0;
      tailRegister := RING - 1;
    }

    /** Whether a packet is waiting that has not been consumed. */
    method HasRecv(ghost s: State<T>) returns (b: bool)
      requires With(s) == s && Inv(s)
      ensures b <==> |s.delivered| < |s.written|
    {
      assert SlotOk(s, s.rxCur);
      b := ring[rxCur].dd;
    }

    method Recv(ghost s: State<T>) returns (r: Option<Token<T>>)
      requires With(s) == s && Enabled(s, Step.Recv)
      ensures r == Next(s, Step.Recv).token
    {
      if !ring[rxCur].dd { return None; }
      r := Some(Token(rxCur, ring[rxCur].packet));
    }

    /** False is the panic of the failed assertion. */
    method RecvEnd(id: nat, ghost s: State<T>) returns (ok: bool)
      requires With(s) == s && Enabled(s, Step.RecvEnd) && id == s.token.value.id
      modifies this
      ensures ok == EndOk(s, id)
      ensures ok ==> With(Next(s, Step.RecvEnd)) == Next(s, Step.RecvEnd)
    {
      if !ring[id].dd { return false; }
      ring := ring[id := ring[id].(dd := false)];
      var cur := rxCur;
      IncIsMod(rxCur, RING);
      rxCur := (rxCur + 1) % RING;
      tailRegister := cur;
      ok := true;
    }
  }
}
