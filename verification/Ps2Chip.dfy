/** What the set-up dialogue does to the controller: the chip's own side of it, as the IBM PS/2 Hardware Interface
    Technical Reference describes the 8042's commands. */
module Ps2Chip {
  import opened Bytes
  import opened Ps2Controller
  import opened Ps2Driver
  import Mouse

  /** `config` bits 0 and 1 switch the ports' interrupts on, bits 4 and 5 switch the ports off, bit 6 translates
      scancodes. `command` is the last one received; `to1` and `to2` are what the devices have been sent. */
  datatype Chip = Chip(dual: bool, config: seq<bool>, command: byte, to1: seq<byte>, to2: seq<byte>)

  function Obey(c: Chip, x: Io): (c': Chip)
    requires |c.config| == 8
    ensures |c'.config| == 8 && c'.dual == c.dual
  {
    match x
    case WriteCmd(v) =>
      var config := if v == 0xAD then c.config[4 := true]
                    else if v == 0xAE then c.config[4 := false]
                    else if v == 0xA7 && c.dual then c.config[5 := true]
                    else if v == 0xA8 && c.dual then c.config[5 := false]
                    else c.config;
      c.(config := config, command := v)
    case WriteData(b) =>
      if c.command == 0x60 then c.(config := Bits(b), command := 0)
      else if c.command == 0xD4 then c.(to2 := c.to2 + [b], command := 0)
      else c.(to1 := c.to1 + [b])
    case _ => c
  }

  function ObeyAll(c: Chip, xs: seq<Io>): (c': Chip)
    requires |c.config| == 8
    ensures |c'.config| == 8 && c'.dual == c.dual
    decreases |xs|
  {
    if xs == [] then c else ObeyAll(Obey(c, xs[0]), xs[1..])
  }

  lemma {:induction false} ObeyAppend(c: Chip, xs: seq<Io>, ys: seq<Io>)
    requires |c.config| == 8
    ensures ObeyAll(c, xs + ys) == ObeyAll(ObeyAll(c, xs), ys)
    decreases |xs|
  {
    if xs == [] {
      assert [] + ys == ys;
    } else {
      assert (xs + ys)[1..] == xs[1..] + ys;
      ObeyAppend(Obey(c, xs[0]), xs[1..], ys);
    }
  }

  lemma Obey2(c: Chip, x: Io, y: Io)
    requires |c.config| == 8
    ensures ObeyAll(c, [x, y]) == Obey(Obey(c, x), y)
  {
    assert [x, y][1..] == [y] && [y][1..] == [];
    assert ObeyAll(Obey(c, x), [y]) == ObeyAll(Obey(Obey(c, x), y), []);
  }

  lemma Obey3(c: Chip, x: Io, y: Io, z: Io)
    requires |c.config| == 8
    ensures ObeyAll(c, [x, y, z]) == Obey(Obey(Obey(c, x), y), z)
  {
    assert [x, y, z][1..] == [y, z];
    Obey2(Obey(c, x), y, z);
  }

  // ---- The script in stages -------------------------------------------------------------------

  function Probe(a: Answers): (ws: seq<Io>)
  {
    (if MayHaveSecond(a) then [WriteCmd(0xA8), WriteCmd(0x20), WriteCmd(0xA7)] else [])
  }

  function InterfaceTests(a: Answers): (ws: seq<Io>)
  {
    [WriteCmd(0xAB)] + (if HasSecond(a) then [WriteCmd(0xA9)] else [])
  }

  function Resets1(a: Answers): (ws: seq<Io>) { if Works1(a) then [WriteCmd(0xAE), WriteData(0xFF)] else [] }

  function Resets2(a: Answers): (ws: seq<Io>)
  {
    if Works2(a) then [WriteCmd(0xA8), WriteCmd(0xD4), WriteData(0xFF)] else []
  }

  function Off(): (ws: seq<Io>) { [WriteCmd(0xAD), WriteCmd(0xA7)] }
  function Quiet(a: Answers): (ws: seq<Io>) { [WriteCmd(0x20), WriteCmd(0x60), WriteData(Quiesced(a.config1))] }
  function On(a: Answers): (ws: seq<Io>)
  {
    [WriteCmd(0x20), WriteCmd(0x60), WriteData(WithInterrupts(a.config3, Works1(a), Works2(a)))]
  }

  lemma ScriptIs(a: Answers)
    ensures Script(a) == Off() + Quiet(a) + [WriteCmd(0xAA)] + Probe(a) + InterfaceTests(a) + On(a)
                         + Resets1(a) + Resets2(a)
  {
    assert [WriteCmd(0xAD), WriteCmd(0xA7), WriteCmd(0x20), WriteCmd(0x60), WriteData(Quiesced(a.config1)),
            WriteCmd(0xAA)] == Off() + Quiet(a) + [WriteCmd(0xAA)];
    var tests := if HasSecond(a) then [WriteCmd(0xA9)] else [];
    var start := Off() + Quiet(a) + [WriteCmd(0xAA)] + Probe(a);
    assert start + [WriteCmd(0xAB)] + tests == start + InterfaceTests(a);
  }

  /** The chip after each stage. */
  function AfterOff(c: Chip): (d: Chip)
    requires |c.config| == 8
    ensures |d.config| == 8
  {
    ObeyAll(c, Off())
  }

  function AfterQuiet(c: Chip, a: Answers): (d: Chip)
    requires |c.config| == 8
    ensures |d.config| == 8
  {
    ObeyAll(AfterOff(c), Quiet(a) + [WriteCmd(0xAA)])
  }

  function AfterTests(c: Chip, a: Answers): (d: Chip)
    requires |c.config| == 8
    ensures |d.config| == 8
  {
    ObeyAll(AfterQuiet(c, a), Probe(a) + InterfaceTests(a))
  }

  /** The chip reports the configuration it has each time it is asked: after switching both ports off, while the second
      port is being probed, and after the tests. */
  ghost predicate Truthful(c: Chip, a: Answers)
    requires |c.config| == 8
  {
    && Bits(a.config1) == AfterOff(c).config
    && (MayHaveSecond(a) ==> Bits(a.config2) == Obey(AfterQuiet(c, a), WriteCmd(0xA8)).config)
    && Bits(a.config3) == AfterTests(c, a).config
  }

  /** A chip nobody has talked to; without a second port, bit 5 is clear. */
  ghost predicate Idle(c: Chip) {
    |c.config| == 8 && c.to1 == [] && c.to2 == [] && (c.dual || !c.config[5])
  }

  lemma OffMeans(c: Chip)
    requires Idle(c)
    ensures var d := AfterOff(c); d.config[4] && d.config[5] == c.dual && d.to1 == [] && d.to2 == []
  {
    Obey2(c, WriteCmd(0xAD), WriteCmd(0xA7));
  }

  lemma QuietMeans(c: Chip, a: Answers)
    requires Idle(c) && Bits(a.config1) == AfterOff(c).config
    ensures var d := AfterQuiet(c, a);
            && !d.config[0] && !d.config[1] && !d.config[6] && d.config[4] && d.config[5] == c.dual
            && d.to1 == [] && d.to2 == [] && d.dual == c.dual
    ensures MayHaveSecond(a) == c.dual
  {
    OffMeans(c);
    var d := AfterOff(c);
    var x, y, z := WriteCmd(0x20), WriteCmd(0x60), WriteData(Quiesced(a.config1));
    ObeyAppend(d, Quiet(a), [WriteCmd(0xAA)]);
    Obey3(d, x, y, z);
    assert [WriteCmd(0xAA)][1..] == [];
    Mouse.Bits(a.config1);
    assert Bits(a.config1)[5] == Mouse.Bit(a.config1, 5);
  }

  /** Probing the second port and testing both leaves them as they were, and the probe tells whether there is one. */
  lemma TestsMean(c: Chip, a: Answers)
    requires Idle(c) && Truthful(c, a)
    ensures AfterTests(c, a) == AfterQuiet(c, a).(command := AfterTests(c, a).command)
    ensures HasSecond(a) == c.dual
  {
    QuietMeans(c, a);
    var d := AfterQuiet(c, a);
    ObeyAppend(d, Probe(a), InterfaceTests(a));
    Mouse.Bits(a.config2);
    if MayHaveSecond(a) {
      Obey3(d, WriteCmd(0xA8), WriteCmd(0x20), WriteCmd(0xA7));
      assert Bits(a.config2)[5] == Mouse.Bit(a.config2, 5);
      assert d.config[5 := false][5 := true] == d.config;
    }
    var e := ObeyAll(d, Probe(a));
    if HasSecond(a) {
      assert InterfaceTests(a) == [WriteCmd(0xAB), WriteCmd(0xA9)];
      Obey2(e, WriteCmd(0xAB), WriteCmd(0xA9));
    } else {
      assert InterfaceTests(a) == [WriteCmd(0xAB)] && [WriteCmd(0xAB)][1..] == [];
    }
  }

  /** The ports' interrupts go on. */
  lemma OnMeans(d: Chip, a: Answers)
    requires |d.config| == 8
    ensures ObeyAll(d, On(a)) == d.(config := Bits(WithInterrupts(a.config3, Works1(a), Works2(a))), command := 0)
  {
    Obey3(d, WriteCmd(0x20), WriteCmd(0x60), WriteData(WithInterrupts(a.config3, Works1(a), Works2(a))));
  }

  /** The devices are reset, each through its own port, which is switched on. */
  lemma ResetsMean(d: Chip, a: Answers)
    requires |d.config| == 8 && d.to1 == [] && d.to2 == [] && (Works2(a) ==> d.dual)
    ensures var e := ObeyAll(ObeyAll(d, Resets1(a)), Resets2(a));
            && e.config == d.config[4 := d.config[4] && !Works1(a)][5 := d.config[5] && !Works2(a)]
            && e.to1 == (if Works1(a) then [0xFF] else []) && e.to2 == (if Works2(a) then [0xFF] else [])
  {
    if Works1(a) { Obey2(d, WriteCmd(0xAE), WriteData(0xFF)); }
    var e := ObeyAll(d, Resets1(a));
    if Works2(a) { Obey3(e, WriteCmd(0xA8), WriteCmd(0xD4), WriteData(0xFF)); }
  }

  /** Exactly the ports whose test succeeded are switched on, with their interrupts; scancodes are not translated; and
      each of the devices behind these ports, and no other, has been sent one reset. */
  ghost predicate SetUp(d: Chip, a: Answers) {
    && |d.config| == 8 && d.config[0] == Works1(a) && d.config[1] == Works2(a) && !d.config[6]
    && d.config[4] == !Works1(a) && d.config[5] == (d.dual && !Works2(a))
    && d.to1 == (if Works1(a) then [0xFF] else []) && d.to2 == (if Works2(a) then [0xFF] else [])
  }

  /** What the whole script comes to on a chip that answers truthfully: the driver takes it to have a second port
      exactly if it has one, and it is set up for the ports that work. */
  lemma ScriptWorks(c: Chip, a: Answers)
    requires Idle(c) && Truthful(c, a)
    ensures HasSecond(a) == c.dual && SetUp(ObeyAll(c, Script(a)), a)
  {
    QuietMeans(c, a);
    TestsMean(c, a);
    StagesAre(c, a);
    Finish(AfterTests(c, a), a);
  }

  lemma Finish(d: Chip, a: Answers)
    requires |d.config| == 8 && Bits(a.config3) == d.config && HasSecond(a) == d.dual
    requires !d.config[0] && !d.config[1] && !d.config[6] && d.config[4] && d.config[5] == d.dual
    requires d.to1 == [] && d.to2 == []
    ensures SetUp(ObeyAll(ObeyAll(ObeyAll(d, On(a)), Resets1(a)), Resets2(a)), a)
  {
    OnMeans(d, a);
    var e := ObeyAll(d, On(a));
    ConfigIs(d, a, e.config);
    ResetsMean(e, a);
  }

  lemma ConfigIs(d: Chip, a: Answers, config: seq<bool>)
    requires |d.config| == 8 && Bits(a.config3) == d.config && !d.config[0] && !d.config[1]
    requires config == Bits(WithInterrupts(a.config3, Works1(a), Works2(a)))
    ensures |config| == 8 && config[0] == Works1(a) && config[1] == Works2(a)
    ensures config[4] == d.config[4] && config[5] == d.config[5] && config[6] == d.config[6]
  {
    assert forall i :: 0 <= i < 8 ==> d.config[i] == Mouse.Bit(a.config3, i);
  }

  lemma StagesAre(c: Chip, a: Answers)
    requires |c.config| == 8
    ensures ObeyAll(c, Script(a))
            == ObeyAll(ObeyAll(ObeyAll(AfterTests(c, a), On(a)), Resets1(a)), Resets2(a))
  {
    ScriptIs(a);
    var t1 := Off() + (Quiet(a) + [WriteCmd(0xAA)]);
    var t2 := t1 + (Probe(a) + InterfaceTests(a));
    assert Script(a) == t2 + On(a) + Resets1(a) + Resets2(a);
    ObeyAppend(c, t2 + On(a) + Resets1(a), Resets2(a));
    ObeyAppend(c, t2 + On(a), Resets1(a));
    ObeyAppend(c, t2, On(a));
    ObeyAppend(c, t1, Probe(a) + InterfaceTests(a));
    ObeyAppend(c, Off(), Quiet(a) + [WriteCmd(0xAA)]);
  }
}
