/** One PS/2 port: enumeration, keyboard bring-up, and then a keyboard or a mouse for good. */
module Ps2Port {
  import opened Bytes
  import opened Wrappers
  import Mouse

  type Key = nat

  /** What the scancode decoder makes of the bytes it has been given so far, for a scancode set: the key event of the
      last one, if any. */
  type Decoder = (nat, seq<byte>) -> Option<Key>

  datatype Keyboard = Disabled | ReqSetAck | ReqSetRsp | EnableAck(set_: byte) | Normal(set_: byte, seen: seq<byte>)

  datatype Port =
    | Waiting | Unknown
    | DSAck | IdentAck | IdentB1 | IdentB2(b1: byte)
    | Kb(kb: Keyboard) | Ms(ms: Mouse.Mouse)

  datatype Change = KeyPressed(key: Key) | MouseMoved(state: Mouse.MouseState)

  /** Answers to commands, which the keyboard never passes on to the decoder. */
  predicate Reserved(b: byte) { b in [0x00, 0xFF, 0xAA, 0xFC, 0xFD, 0xEE, 0xFA, 0xFE] }

  /** `Keyboard::handle_data`: the keyboard after it, a command to send, a key. */
  function HandleKeyboard(k: Keyboard, data: byte, decode: Decoder): (r: (Keyboard, Option<byte>, Option<Key>))
  {
    match k
    case Disabled => (k, None, None)
    case ReqSetAck => (ReqSetRsp, Some(0x00), None)
    case ReqSetRsp =>
      if data in [1, 2, 3] then (EnableAck(data), Some(0xF4), None)
      else if data == 0xFA then (k, None, None)
      else (Disabled, None, None)
    case EnableAck(set_) =>
      if data != 0xFA then (Disabled, None, None)
      else if set_ == 1 || set_ == 2 then (Normal(set_, []), None, None)
      else (Disabled, None, None)
    case Normal(set_, seen) =>
      if Reserved(data) then (k, None, None)
      else (Normal(set_, seen + [data]), None, decode(set_, seen + [data]))
  }

  /** `Keyboard::new`: only the plain MF2 keyboard is brought up. */
  function NewKeyboard(mf2: bool): (r: (Option<byte>, Port))
  {
    if mf2 then (Some(0xF0), Kb(ReqSetAck)) else (None, Kb(Disabled))
  }

  /** `Port::handle_data`: the port after it, a command to send, a change to report. */
  function Handle(p: Port, data: byte, decode: Decoder): (r: (Port, Option<byte>, Option<Change>))
  {
    match p
    case Waiting => if data == 0xAA then (DSAck, Some(0xF5), None) else (p, None, None)
    case Unknown => (p, None, None)
    case DSAck =>
      if data == 0xFA then (IdentAck, Some(0xF2), None)
      else if data == 0x00 then (p, None, None)
      else (Unknown, None, None)
    case IdentAck => if data == 0xFA then (IdentB1, None, None) else (Unknown, None, None)
    case IdentB1 =>
      if data in [0x00, 0x03, 0x04] then (Ms(Mouse.New().1), Some(Mouse.New().0), None)
      else if data == 0xAB then (IdentB2(data), None, None)
      else (Unknown, None, None)
    case IdentB2(b1) =>
      if b1 == 0xAB && data in [0x41, 0x83, 0x84, 0x85, 0x86, 0x90, 0x91, 0x92, 0xA1, 0xC1] then
        var (command, port) := NewKeyboard(data == 0x83);
        (port, command, None)
      else (Unknown, None, None)
    case Kb(kb) =>
      var (kb', command, key) := HandleKeyboard(kb, data, decode);
      (Kb(kb'), command, if key.Some? then Some(KeyPressed(key.value)) else None)
    case Ms(ms) =>
      var (ms', state) := Mouse.Handle(ms, data);
      (Ms(ms'), None, if state.Some? then Some(MouseMoved(state.value)) else None)
  }

  datatype Outcome = Outcome(port: Port, commands: seq<byte>, changes: seq<Change>)

  /** The whole stream. */
  function Feed(p: Port, bytes: seq<byte>, decode: Decoder): (r: Outcome)
    decreases |bytes|
  {
    if bytes == [] then Outcome(p, [], [])
    else
      var (p1, command, change) := Handle(p, bytes[0], decode);
      var rest := Feed(p1, bytes[1..], decode);
      Outcome(rest.port, Prepend(command, rest.commands), Prepend(change, rest.changes))
  }

  // ---- What a port may send -------------------------------------------------------------------

  const KEYBOARD_SCRIPT: seq<byte> := [0xF5, 0xF2, 0xF0, 0x00, 0xF4]
  const MOUSE_SCRIPT: seq<byte> := [0xF5, 0xF2, 0xF4]

  /** The commands sent by the time a port is in a given state. */
  ghost predicate SentBy(p: Port, log: seq<byte>) {
    match p
    case Waiting => log == []
    case Unknown => log == [0xF5] || log == [0xF5, 0xF2]
    case DSAck => log == [0xF5]
    case IdentAck => log == [0xF5, 0xF2]
    case IdentB1 => log == [0xF5, 0xF2]
    case IdentB2(b1) => b1 == 0xAB && log == [0xF5, 0xF2]
    case Ms(_) => log == MOUSE_SCRIPT
    case Kb(kb) =>
      match kb
      case Disabled => log == [0xF5, 0xF2] || log == [0xF5, 0xF2, 0xF0, 0x00] || log == KEYBOARD_SCRIPT
      case ReqSetAck => log == [0xF5, 0xF2, 0xF0]
      case ReqSetRsp => log == [0xF5, 0xF2, 0xF0, 0x00]
      case EnableAck(_) => log == KEYBOARD_SCRIPT
      case Normal(set_, _) => log == KEYBOARD_SCRIPT && (set_ == 1 || set_ == 2)
  }

  lemma HandleSends(p: Port, data: byte, decode: Decoder, log: seq<byte>)
    requires SentBy(p, log)
    ensures var (p', command, _) := Handle(p, data, decode);
            SentBy(p', if command.Some? then log + [command.value] else log)
  {
  }

  lemma {:induction false} FeedSends(p: Port, bytes: seq<byte>, decode: Decoder, log: seq<byte>)
    requires SentBy(p, log)
    ensures var r := Feed(p, bytes, decode); SentBy(r.port, log + r.commands)
    decreases |bytes|
  {
    if bytes == [] {
      assert log + [] == log;
    } else {
      var (p1, command, change) := Handle(p, bytes[0], decode);
      HandleSends(p, bytes[0], decode, log);
      var log1 := if command.Some? then log + [command.value] else log;
      FeedSends(p1, bytes[1..], decode, log1);
      assert log + Feed(p, bytes, decode).commands == log1 + Feed(p1, bytes[1..], decode).commands;
    }
  }

  /** A port that is a keyboard, a mouse or unknown stays so, and reports only its own kind of change. */
  ghost predicate Settled(p: Port, r: Outcome) {
    match p
    case Unknown => r == Outcome(Unknown, [], [])
    case Kb(_) => r.port.Kb? && forall c :: c in r.changes ==> c.KeyPressed?
    case Ms(_) => r.port.Ms? && r.commands == [] && forall c :: c in r.changes ==> c.MouseMoved?
    case _ => r.changes == [] || ((r.port.Kb? && forall c :: c in r.changes ==> c.KeyPressed?)
                                  || (r.port.Ms? && forall c :: c in r.changes ==> c.MouseMoved?))
  }

  lemma {:induction false} FeedSettles(p: Port, bytes: seq<byte>, decode: Decoder)
    ensures Settled(p, Feed(p, bytes, decode))
    decreases |bytes|
  {
    if bytes != [] {
      FeedSettles(Handle(p, bytes[0], decode).0, bytes[1..], decode);
    }
  }

  /** A keyboard that has reported a key is in its normal state and stays in it. */
  lemma {:induction false} KeysMeanNormal(p: Port, bytes: seq<byte>, decode: Decoder)
    requires !p.Ms?
    ensures var r := Feed(p, bytes, decode);
            && (p.Kb? && p.kb.Normal? ==> r.port.Kb? && r.port.kb.Normal? && r.port.kb.set_ == p.kb.set_)
            && ((exists c :: c in r.changes && c.KeyPressed?) ==> r.port.Kb? && r.port.kb.Normal?)
    decreases |bytes|
  {
    if bytes != [] {
      var p1 := Handle(p, bytes[0], decode).0;
      if p1.Ms? {
        FeedSettles(p1, bytes[1..], decode);
      } else {
        KeysMeanNormal(p1, bytes[1..], decode);
      }
    }
  }

  /** Enumeration safety, on every byte stream: what the port sends is a prefix of one of the two scripts, it never
      reports both keys and mouse states, and it reports a key only after F4 has been sent and acknowledged with
      scancode set 1 or 2. */
  lemma EnumerationSafe(bytes: seq<byte>, decode: Decoder)
    ensures var r := Feed(Waiting, bytes, decode);
            && (r.commands <= KEYBOARD_SCRIPT || r.commands <= MOUSE_SCRIPT)
            && !((exists c :: c in r.changes && c.KeyPressed?) && (exists c :: c in r.changes && c.MouseMoved?))
            && ((exists c :: c in r.changes && c.KeyPressed?) ==>
                  r.commands == KEYBOARD_SCRIPT && r.port.Kb? && r.port.kb.Normal? && r.port.kb.set_ in [1, 2])
  {
    var r := Feed(Waiting, bytes, decode);
    FeedSends(Waiting, bytes, decode, []);
    assert [] + r.commands == r.commands;
    FeedSettles(Waiting, bytes, decode);
    KeysMeanNormal(Waiting, bytes, decode);
  }

  // ---- Which streams bring up which device ----------------------------------------------------

  function DropThrough(bytes: seq<byte>, b: byte): (r: Option<seq<byte>>)
  {
    if bytes == [] then None else if bytes[0] == b then Some(bytes[1..]) else DropThrough(bytes[1..], b)
  }

  function DropWhile(bytes: seq<byte>, b: byte): (r: seq<byte>)
  {
    if bytes != [] && bytes[0] == b then DropWhile(bytes[1..], b) else bytes
  }

  /** A stream that gets a device identified: anything up to AA, zeroes, FA, FA; the rest starts with the device's
      identity. */
  function Identity(bytes: seq<byte>): (r: Option<seq<byte>>)
  {
    match DropThrough(bytes, 0xAA)
    case None => None
    case Some(rest) =>
      var acks := DropWhile(rest, 0x00);
      if |acks| >= 2 && acks[0] == 0xFA && acks[1] == 0xFA then Some(acks[2..]) else None
  }

  /** A stream that brings up a keyboard: its identity AB 83, any one byte, acknowledgements, a scancode set the
      kernel can decode, and an acknowledgement; what follows is key data. */
  function KeyboardData(bytes: seq<byte>): (r: Option<(byte, seq<byte>)>)
  {
    match Identity(bytes)
    case None => None
    case Some(id) =>
      if !(|id| >= 3 && id[0] == 0xAB && id[1] == 0x83) then None
      else
        var rsp := DropWhile(id[3..], 0xFA);
        if |rsp| >= 2 && (rsp[0] == 1 || rsp[0] == 2) && rsp[1] == 0xFA then Some((rsp[0], rsp[2..])) else None
  }

  /** A stream that brings up a mouse; what follows is mouse data. */
  function MouseData(bytes: seq<byte>): (r: Option<seq<byte>>)
  {
    match Identity(bytes)
    case None => None
    case Some(id) => if |id| >= 1 && id[0] in [0x00, 0x03, 0x04] then Some(id[1..]) else None
  }

  /** The bytes that can be scancodes: all but 00, AA, EE, FA and those from FC on. */
  predicate IsScancode(b: byte) { 0 < b < 0xFC && b != 0xAA && b != 0xEE && b != 0xFA }

  function Scancodes(bytes: seq<byte>): (r: seq<byte>)
  {
    if bytes == [] then []
    else if IsScancode(bytes[0]) then [bytes[0]] + Scancodes(bytes[1..])
    else Scancodes(bytes[1..])
  }

  /** Where a stream leads, and what is reported on the way. */
  function End(p: Port, bytes: seq<byte>, decode: Decoder): (r: (Port, seq<Change>))
  {
    (Feed(p, bytes, decode).port, Feed(p, bytes, decode).changes)
  }

  /** The key events of a stream of scancodes, after those already `seen`. */
  function Keys(set_: nat, seen: seq<byte>, codes: seq<byte>, decode: Decoder): (r: seq<Change>)
    decreases |codes|
  {
    if codes == [] then []
    else
      var key := decode(set_, seen + [codes[0]]);
      Prepend(if key.Some? then Some(KeyPressed(key.value)) else None,
              Keys(set_, seen + [codes[0]], codes[1..], decode))
  }

  function Moves(states: seq<Mouse.MouseState>): (r: seq<Change>)
  {
    if states == [] then [] else [MouseMoved(states[0])] + Moves(states[1..])
  }

  lemma {:induction false} DeadEnds(bytes: seq<byte>, decode: Decoder)
    ensures End(Unknown, bytes, decode) == (Unknown, [])
    ensures End(Kb(Disabled), bytes, decode) == (Kb(Disabled), [])
    decreases |bytes|
  {
    if bytes != [] { DeadEnds(bytes[1..], decode); }
  }

  lemma {:induction false} FromWaiting(bytes: seq<byte>, decode: Decoder)
    ensures var end := End(Waiting, bytes, decode);
            match DropThrough(bytes, 0xAA)
            case None => end == (Waiting, [])
            case Some(rest) => end == End(DSAck, rest, decode)
    decreases |bytes|
  {
    if bytes != [] && bytes[0] != 0xAA { FromWaiting(bytes[1..], decode); }
  }

  lemma {:induction false} FromDSAck(bytes: seq<byte>, decode: Decoder)
    ensures var end := End(DSAck, bytes, decode);
            var acks := DropWhile(bytes, 0x00);
            if acks == [] then end == (DSAck, [])
            else if acks[0] == 0xFA then end == End(IdentAck, acks[1..], decode)
            else end == (Unknown, [])
    decreases |bytes|
  {
    if bytes != [] {
      if bytes[0] == 0x00 {
        FromDSAck(bytes[1..], decode);
      } else if bytes[0] != 0xFA {
        DeadEnds(bytes[1..], decode);
      }
    }
  }

  /** A port settles into a device exactly if the stream identifies one, and then as if it had started there. */
  lemma FromStart(bytes: seq<byte>, decode: Decoder)
    ensures var end := End(Waiting, bytes, decode);
            match Identity(bytes)
            case None => !end.0.Kb? && !end.0.Ms?
            case Some(id) => end == End(IdentB1, id, decode)
  {
    FromWaiting(bytes, decode);
    if DropThrough(bytes, 0xAA).Some? {
      var rest := DropThrough(bytes, 0xAA).value;
      FromDSAck(rest, decode);
      var acks := DropWhile(rest, 0x00);
      if |acks| >= 2 && acks[0] == 0xFA {
        assert acks[1..][1..] == acks[2..];
        if acks[1] != 0xFA { DeadEnds(acks[2..], decode); }
      }
    }
  }

  lemma {:induction false} FromReqSetRsp(bytes: seq<byte>, decode: Decoder)
    ensures var end := End(Kb(ReqSetRsp), bytes, decode);
            var rsp := DropWhile(bytes, 0xFA);
            if rsp == [] then end == (Kb(ReqSetRsp), [])
            else if rsp[0] in [1, 2, 3] then end == End(Kb(EnableAck(rsp[0])), rsp[1..], decode)
            else end == (Kb(Disabled), [])
    decreases |bytes|
  {
    if bytes != [] {
      if bytes[0] == 0xFA {
        FromReqSetRsp(bytes[1..], decode);
      } else if bytes[0] !in [1, 2, 3] {
        DeadEnds(bytes[1..], decode);
      }
    }
  }

  lemma {:induction false} FromNormal(set_: byte, seen: seq<byte>, bytes: seq<byte>, decode: Decoder)
    ensures End(Kb(Normal(set_, seen)), bytes, decode)
            == (Kb(Normal(set_, seen + Scancodes(bytes))), Keys(set_, seen, Scancodes(bytes), decode))
    decreases |bytes|
  {
    if bytes == [] {
      assert seen + [] == seen;
    } else if !IsScancode(bytes[0]) {
      FromNormal(set_, seen, bytes[1..], decode);
    } else {
      FromNormal(set_, seen + [bytes[0]], bytes[1..], decode);
      assert seen + [bytes[0]] + Scancodes(bytes[1..]) == seen + Scancodes(bytes);
      assert Scancodes(bytes)[1..] == Scancodes(bytes[1..]);
    }
  }

  lemma FromEnableAck(set_: byte, bytes: seq<byte>, decode: Decoder)
    ensures var end := End(Kb(EnableAck(set_)), bytes, decode);
            if bytes == [] then end == (Kb(EnableAck(set_)), [])
            else if bytes[0] == 0xFA && (set_ == 1 || set_ == 2) then
              end == (Kb(Normal(set_, Scancodes(bytes[1..]))), Keys(set_, [], Scancodes(bytes[1..]), decode))
            else end == (Kb(Disabled), [])
  {
    if bytes != [] {
      DeadEnds(bytes[1..], decode);
      FromNormal(set_, [], bytes[1..], decode);
      assert [] + Scancodes(bytes[1..]) == Scancodes(bytes[1..]);
    }
  }

  lemma FromKeyboardIdentity(id: seq<byte>, decode: Decoder)
    requires |id| >= 2 && id[0] == 0xAB && id[1] == 0x83
    ensures End(IdentB1, id, decode)
            == if |id| == 2 then (Kb(ReqSetAck), []) else End(Kb(ReqSetRsp), id[3..], decode)
  {
    assert End(IdentB1, id, decode) == End(IdentB2(0xAB), id[1..], decode);
    assert id[1..][1..] == id[2..];
    assert End(IdentB2(0xAB), id[1..], decode) == End(Kb(ReqSetAck), id[2..], decode);
    if |id| > 2 { assert id[2..][1..] == id[3..]; }
  }

  lemma {:induction false} NeverNormal(p: Port, bytes: seq<byte>, decode: Decoder)
    requires p == Kb(Disabled) || p == Unknown || p.Ms?
    ensures var port := End(p, bytes, decode).0; !(port.Kb? && port.kb.Normal?)
    decreases |bytes|
  {
    if bytes != [] { NeverNormal(Handle(p, bytes[0], decode).0, bytes[1..], decode); }
  }

  lemma FromOtherIdentity(id: seq<byte>, decode: Decoder)
    requires !(|id| >= 2 && id[0] == 0xAB && id[1] == 0x83)
    ensures var port := End(IdentB1, id, decode).0; !(port.Kb? && port.kb.Normal?)
  {
    if |id| >= 1 && id[0] != 0xAB {
      NeverNormal(Handle(IdentB1, id[0], decode).0, id[1..], decode);
    } else if |id| == 1 {
      assert Feed(IdentB2(0xAB), id[1..], decode).port == IdentB2(0xAB);
    } else if |id| >= 2 {
      OtherSecondByte(id[1..], decode);
    }
  }

  lemma OtherSecondByte(bytes: seq<byte>, decode: Decoder)
    requires bytes != [] && bytes[0] != 0x83
    ensures var port := End(IdentB2(0xAB), bytes, decode).0; !(port.Kb? && port.kb.Normal?)
  {
    var p := Handle(IdentB2(0xAB), bytes[0], decode).0;
    assert p == Unknown || p == Kb(Disabled);
    NeverNormal(p, bytes[1..], decode);
  }

  /** A keyboard comes up on exactly the streams `KeyboardData` describes, with that scancode set; the decoder has then
      been given exactly the scancodes that follow, and its key events are all the port has reported. */
  lemma KeyboardUpIff(bytes: seq<byte>, decode: Decoder)
    ensures var end := End(Waiting, bytes, decode);
            match KeyboardData(bytes)
            case None => !(end.0.Kb? && end.0.kb.Normal?)
            case Some((set_, data)) =>
              end == (Kb(Normal(set_, Scancodes(data))), Keys(set_, [], Scancodes(data), decode))
  {
    FromStart(bytes, decode);
    if Identity(bytes).Some? {
      var id := Identity(bytes).value;
      if |id| >= 2 && id[0] == 0xAB && id[1] == 0x83 {
        FromKeyboardIdentity(id, decode);
        if |id| > 2 {
          FromReqSetRsp(id[3..], decode);
          var rsp := DropWhile(id[3..], 0xFA);
          if rsp != [] && rsp[0] in [1, 2, 3] {
            FromEnableAck(rsp[0], rsp[1..], decode);
            if |rsp| >= 2 { assert rsp[1..][1..] == rsp[2..]; }
          }
        }
      } else {
        FromOtherIdentity(id, decode);
      }
    }
  }

  lemma {:induction false} FromMouse(m: Mouse.Mouse, bytes: seq<byte>, decode: Decoder)
    ensures var (m', states) := Mouse.Feed(m, bytes); End(Ms(m), bytes, decode) == (Ms(m'), Moves(states))
    decreases |bytes|
  {
    if bytes != [] { FromMouse(Mouse.Handle(m, bytes[0]).0, bytes[1..], decode); }
  }

  lemma {:induction false} NeverMouse(p: Port, bytes: seq<byte>, decode: Decoder)
    requires p.Kb? || p == Unknown || p.IdentB2?
    ensures !End(p, bytes, decode).0.Ms?
    decreases |bytes|
  {
    if bytes != [] { NeverMouse(Handle(p, bytes[0], decode).0, bytes[1..], decode); }
  }

  /** A mouse comes up on exactly the streams `MouseData` describes; it has then read exactly what follows, and its
      changes are all the port has reported. */
  lemma MouseUpIff(bytes: seq<byte>, decode: Decoder)
    ensures var end := End(Waiting, bytes, decode);
            match MouseData(bytes)
            case None => !end.0.Ms?
            case Some(data) =>
              var (m, states) := Mouse.Feed(Mouse.New().1, data);
              end == (Ms(m), Moves(states))
  {
    FromStart(bytes, decode);
    if Identity(bytes).Some? && Identity(bytes).value != [] {
      var id := Identity(bytes).value;
      FromMouse(Mouse.New().1, id[1..], decode);
      if id[0] !in [0x00, 0x03, 0x04] { NeverMouse(Handle(IdentB1, id[0], decode).0, id[1..], decode); }
    }
  }

  /** The identities of keyboards the kernel recognises but leaves disabled. */
  const OTHER_KEYBOARDS: set<byte> := {0x41, 0x84, 0x85, 0x86, 0x90, 0x91, 0x92, 0xA1, 0xC1}

  /** What the first bytes of its identity make of a port. */
  lemma IdentityDecides(bytes: seq<byte>, decode: Decoder)
    requires Identity(bytes).Some?
    ensures var (id, port) := (Identity(bytes).value, Feed(Waiting, bytes, decode).port);
            if id == [] then port == IdentB1
            else if id[0] in {0x00, 0x03, 0x04} then port.Ms?
            else if id == [0xAB] then port == IdentB2(0xAB)
            else if id[0] == 0xAB && id[1] == 0x83 then port.Kb?
            else if id[0] == 0xAB && id[1] in OTHER_KEYBOARDS then port == Kb(Disabled)
            else port == Unknown
  {
    FromStart(bytes, decode);
    var id := Identity(bytes).value;
    if id != [] {
      var first := Handle(IdentB1, id[0], decode).0;
      FeedSettles(first, id[1..], decode);
      if id[0] == 0xAB && |id| > 1 {
        assert id[1..][1..] == id[2..];
        FeedSettles(Handle(IdentB2(0xAB), id[1], decode).0, id[2..], decode);
        DeadEnds(id[2..], decode);
      }
    }
  }
}
