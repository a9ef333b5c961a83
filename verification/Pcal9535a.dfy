/** drivers/gpio/gpio_pcal9535a.c: a GPIO expander behind an I2C bus whose writes may fail,
    with a cache of its write-only view of the chip's registers. */
module Pcal9535a {
  import opened CTypes
  import opened Words16

  /** By pin, by port, or any other access operation. */
  datatype Access = ByPin | ByPort | OtherAccess

  datatype Pull = NoPull | Up | Down | BothPulls

  datatype Flags = Flags(output: bool, inverted: bool, pull: Pull)

  /** What a burst write of a register pair may do: succeed, fail with the chip untouched, or
      fail after the first byte was taken. */
  datatype Result = Done | Refused(code: int) | Torn(code: int)

  type Outcome = o: Result | !o.Done? ==> o.code != 0 witness Done

  datatype Register = Output | Polarity | Direction | PullEnable | PullSelect

  datatype Registers = Registers(output: Word, polarity: Word, direction: Word, pullEnable: Word, pullSelect: Word) {
    function Get(r: Register): Word {
      match r
      case Output => output
      case Polarity => polarity
      case Direction => direction
      case PullEnable => pullEnable
      case PullSelect => pullSelect
    }

    function Set(r: Register, w: Word): Registers {
      match r
      case Output => this.(output := w)
      case Polarity => this.(polarity := w)
      case Direction => this.(direction := w)
      case PullEnable => this.(pullEnable := w)
      case PullSelect => this.(pullSelect := w)
    }
  }

  /** The power-on values of the chip, which are also the cache's initial values. */
  const DEFAULTS := Registers(All(true), All(false), All(true), All(false), All(true))

  // ---------------------------------------------------------------- one operation

  /** A transfer on the bus: the register pair, the word sent, and what became of it. */
  datatype Transfer = Transfer(r: Register, word: Word, bus: Outcome)

  /** The driver's cache and inversion mask, the chip, and the transfers so far. */
  datatype Device = Device(cache: Registers, chip: Registers, inv: Word, sent: seq<Transfer>)

  const START := Device(DEFAULTS, DEFAULTS, All(false), [])

  /** The first byte of now in front of the second byte of was. */
  function Halves(now: Word, was: Word): Word { now[..8] + was[8..] }

  /** What a register pair holds after a transfer. */
  function Taken(was: Word, word: Word, bus: Outcome): Word {
    match bus case Done => word case Refused(_) => was case Torn(_) => Halves(word, was)
  }

  /** A register pair is written from the cache. */
  function Sent(d: Device, r: Register, bus: Outcome): Device {
    d.(chip := d.chip.Set(r, Taken(d.chip.Get(r), d.cache.Get(r), bus)),
       sent := d.sent + [Transfer(r, d.cache.Get(r), bus)])
  }

  /** The pins an access selects. */
  predicate Selects(access: Access, pin: nat, i: nat) { access == ByPort || (access == ByPin && i == pin) }

  /** w with the selected pins at a level. */
  function Leveled(w: Word, access: Access, pin: nat, level: bool): (v: Word)
    ensures forall i :: 0 <= i < 16 ==> v[i] == if Selects(access, pin, i) then level else w[i]
  {
    seq(16, i requires 0 <= i < 16 => if Selects(access, pin, i) then level else w[i])
  }

  /** A level that a configuration gives to the selected pins of a register, and which of
      the call's transfers carries it. */
  datatype Setting = Setting(r: Register, level: bool, k: nat)

  /** Direction, polarity, and the pulls: the selection only if there is one to select. */
  function Settings(flags: Flags): seq<Setting> {
    [Setting(Direction, !flags.output, 0), Setting(Polarity, flags.inverted, 1)] + Pulls(flags)
  }

  function Pulls(flags: Flags): seq<Setting> {
    (if flags.pull == NoPull then [] else [Setting(PullSelect, flags.pull == Up, 2)])
    + [Setting(PullEnable, flags.pull != NoPull, 3)]
  }

  /** One setting: the cache takes it whatever the bus does; the inversion mask follows a
      polarity that was accepted. */
  function Applied(d: Device, s: Setting, access: Access, pin: nat, bus: Outcome): Device {
    var cache := d.cache.Set(s.r, Leveled(d.cache.Get(s.r), access, pin, s.level));
    var e := Sent(d.(cache := cache), s.r, bus);
    if s.r == Polarity && bus.Done? then e.(inv := cache.polarity) else e
  }

  /** Settings in order, up to the first failure. */
  function AppliedAll(d: Device, settings: seq<Setting>, access: Access, pin: nat, bus: nat -> Outcome): Device
    decreases |settings|
  {
    if settings == [] then d
    else
      var s := settings[0];
      var e := Applied(d, s, access, pin, bus(s.k));
      if bus(s.k).Done? then AppliedAll(e, settings[1..], access, pin, bus) else e
  }

  predicate AllDone(settings: seq<Setting>, bus: nat -> Outcome) {
    forall i :: 0 <= i < |settings| ==> bus(settings[i].k).Done?
  }

  /** Clear the pins of a mask, then set those of a value. */
  function Replace(r: Word, mask: Word, value: Word): Word { Or(And(r, Not(mask)), value) }

  /** The output register after a write. */
  function Written(out: Word, inv: Word, access: Access, pin: nat, value: Word): Word {
    match access
    case ByPin =>
      var mask := Mask(pin);
      Replace(out, mask, And(Xor(And(Shl(value, pin), mask), And(inv, mask)), mask))
    case ByPort => Replace(value, inv, And(Xor(And(value, inv), inv), inv))
    case OtherAccess => out
  }

  /** A pin write puts the lowest bit of the value on the pin, a port write each bit on its
      pin, inverted where the polarity says so; the other pins keep their level. */
  lemma WrittenPins(out: Word, inv: Word, access: Access, pin: nat, value: Word, i: nat)
    requires i < 16
    ensures Written(out, inv, access, pin, value)[i] ==
      if !Selects(access, pin, i) then out[i]
      else (if access == ByPin then value[0] else value[i]) != inv[i]
  {
  }

  datatype Operation =
    | Configure(access: Access, pin: nat, flags: Flags)
    | WriteLevels(access: Access, pin: nat, value: Word)

  /** An operation on a driver with a bus master and a supported access. */
  function Performed(d: Device, op: Operation, bus: nat -> Outcome): Device {
    match op
    case Configure(access, pin, flags) => AppliedAll(d, Settings(flags), access, pin, bus)
    case WriteLevels(access, pin, value) =>
      Sent(d.(cache := d.cache.(output := Written(d.cache.output, d.inv, access, pin, value))), Output, bus(0))
  }

  function Operated(d: Device, master: bool, op: Operation, bus: nat -> Outcome): Device {
    if master && !op.access.OtherAccess? then Performed(d, op, bus) else d
  }

  function OperatedAll(d: Device, master: bool, ops: seq<Operation>, bus: nat -> nat -> Outcome): Device {
    if ops == [] then d
    else
      var k := |ops| - 1;
      Operated(OperatedAll(d, master, ops[..k], bus), master, ops[k], bus(k))
  }

  // ---------------------------------------------------------------- the driver

  class Expander {
    const hasMaster: bool
    var outPolInv: Word
    var cache: Registers
    var chip: Registers
    ghost var sent: seq<Transfer>

    ghost function State(): Device
      reads this
    {
      Device(cache, chip, outPolInv, sent)
    }

    constructor (master: bool)
      ensures State() == START && hasMaster == master
    {
      hasMaster, outPolInv, cache, chip := master, All(false), DEFAULTS, DEFAULTS;
      sent := [];
    }

    /** A register pair is written from the cache. */
    method WritePortRegs(r: Register, bus: Outcome) returns (ret: int)
      modifies this`chip, this`sent
      ensures State() == Sent(old(State()), r, bus) && (ret == 0 <==> bus.Done?)
    {
      sent := sent + [Transfer(r, cache.Get(r), bus)];
      match bus
      case Done =>
        chip, ret := chip.Set(r, cache.Get(r)), 0;
      case Refused(code) =>
        ret := code;
      case Torn(code) =>
        chip, ret := chip.Set(r, Halves(cache.Get(r), chip.Get(r))), code;
    }

    /** The switch shared by the setup functions: the selected pins of a cached register
        get a level. */
    method Drive(r: Register, access: Access, pin: nat, level: bool) returns (supported: bool)
      requires pin < 32
      modifies this`cache
      ensures supported <==> !access.OtherAccess?
      ensures cache == old(cache).Set(r, Leveled(old(cache).Get(r), access, pin, level))
    {
      supported := true;
      match access
      case ByPin =>
        var value := if level then Mask(pin) else All(false);
        cache := cache.Set(r, Replace(cache.Get(r), Mask(pin), value));
        assert Replace(old(cache).Get(r), Mask(pin), value) == Leveled(old(cache).Get(r), access, pin, level);
      case ByPort =>
        cache := cache.Set(r, All(level));
        assert All(level) == Leveled(old(cache).Get(r), access, pin, level);
      case OtherAccess =>
        supported := false;
        assert cache.Get(r) == Leveled(cache.Get(r), access, pin, level);
    }

    /** A setup function: drive the cache, write the register; a polarity that was accepted
        becomes the inversion mask. */
    method Setup(s: Setting, access: Access, pin: nat, bus: Outcome) returns (ret: int)
      requires pin < 32
      modifies this
      ensures access.OtherAccess? ==> State() == old(State()) && ret == -ENOTSUP
      ensures !access.OtherAccess? ==>
        State() == Applied(old(State()), s, access, pin, bus) && (ret == 0 <==> bus.Done?)
    {
      var supported := Drive(s.r, access, pin, s.level);
      if !supported {
        Same(cache, s.r, old(cache), access, pin, s.level);
        return -ENOTSUP;
      }
      ret := WritePortRegs(s.r, bus);
      if s.r == Polarity && ret == 0 {
        outPolInv := cache.polarity;
      }
    }

    /** _setup_pin_pullupdown: the selection register is written only when a pull is asked
        for; the enable register only if that succeeded. */
    method SetupPulls(access: Access, pin: nat, flags: Flags, bus: nat -> Outcome) returns (ret: int)
      requires pin < 32
      modifies this
      ensures access.OtherAccess? ==> State() == old(State()) && ret == -ENOTSUP
      ensures !access.OtherAccess? ==> State() == AppliedAll(old(State()), Pulls(flags), access, pin, bus)
      ensures !access.OtherAccess? ==> (ret == 0 <==> AllDone(Pulls(flags), bus))
    {
      PullSteps(State(), flags, access, pin, bus);
      if flags.pull != NoPull {
        ret := Setup(Setting(PullSelect, flags.pull == Up, 2), access, pin, bus(2));
        if ret != 0 {
          return;
        }
      }
      ret := Setup(Setting(PullEnable, flags.pull != NoPull, 3), access, pin, bus(3));
    }

    /** gpio_pcal9535a_config: direction, polarity, pulls, stopping at the first failure. */
    method Config(access: Access, pin: nat, flags: Flags, bus: nat -> Outcome) returns (ret: int)
      requires pin < 32
      modifies this
      ensures State() == Operated(old(State()), hasMaster, Configure(access, pin, flags), bus)
      ensures !hasMaster ==> ret == -EINVAL
      ensures hasMaster && access.OtherAccess? ==> ret == -ENOTSUP
      ensures hasMaster && !access.OtherAccess? ==> (ret == 0 <==> AllDone(Settings(flags), bus))
    {
      if !hasMaster {
        return -EINVAL;
      }
      ConfigSteps(State(), flags, access, pin, bus);
      ret := Setup(Setting(Direction, !flags.output, 0), access, pin, bus(0));
      if ret != 0 {
        return;
      }
      ret := Setup(Setting(Polarity, flags.inverted, 1), access, pin, bus(1));
      if ret != 0 {
        return;
      }
      ret := SetupPulls(access, pin, flags, bus);
    }

    /** gpio_pcal9535a_write. */
    method Write(access: Access, pin: nat, value: Word, bus: nat -> Outcome) returns (ret: int)
      requires pin < 32
      modifies this`cache, this`chip, this`sent
      ensures State() == Operated(old(State()), hasMaster, WriteLevels(access, pin, value), bus)
      ensures !hasMaster ==> ret == -EINVAL
      ensures hasMaster && access.OtherAccess? ==> ret == -ENOTSUP
      ensures hasMaster && !access.OtherAccess? ==> (ret == 0 <==> bus(0).Done?)
    {
      if !hasMaster {
        return -EINVAL;
      }
      if access.OtherAccess? {
        return -ENOTSUP;
      }
      cache := cache.(output := Written(cache.output, outPolInv, access, pin, value));
      ret := WritePortRegs(Output, bus(0));
    }

    /** Any operations, any bus. */
    method Operate(ops: seq<Operation>, bus: nat -> nat -> Outcome)
      requires forall k :: 0 <= k < |ops| ==> ops[k].pin < 32
      modifies this
      ensures State() == OperatedAll(old(State()), hasMaster, ops, bus)
    {
      for k := 0 to |ops|
        invariant State() == OperatedAll(old(State()), hasMaster, ops[..k], bus)
      {
        assert ops[..k + 1][..k] == ops[..k];
        match ops[k]
        case Configure(access, pin, flags) =>
          var _ := Config(access, pin, flags, bus(k));
        case WriteLevels(access, pin, value) =>
          var _ := Write(access, pin, value, bus(k));
      }
      assert ops[..|ops|] == ops;
    }
  }

  lemma Same(now: Registers, r: Register, was: Registers, access: Access, pin: nat, level: bool)
    requires access.OtherAccess? && now == was.Set(r, Leveled(was.Get(r), access, pin, level))
    ensures now == was
  {
    assert Leveled(was.Get(r), access, pin, level) == was.Get(r);
  }

  /** The settings of the pulls and of a whole configuration, one by one. */
  lemma PullSteps(d: Device, flags: Flags, access: Access, pin: nat, bus: nat -> Outcome)
    ensures var enable := Setting(PullEnable, flags.pull != NoPull, 3);
      var select := Setting(PullSelect, flags.pull == Up, 2);
      AppliedAll(d, Pulls(flags), access, pin, bus) ==
        if flags.pull == NoPull then Applied(d, enable, access, pin, bus(3))
        else if bus(2).Done? then Applied(Applied(d, select, access, pin, bus(2)), enable, access, pin, bus(3))
        else Applied(d, select, access, pin, bus(2))
  {
    var enable := Setting(PullEnable, flags.pull != NoPull, 3);
    LastSetting(enable, access, pin, bus);
    if flags.pull != NoPull {
      assert Pulls(flags)[1..] == [enable];
    } else {
      assert Pulls(flags) == [enable];
    }
  }

  lemma LastSetting(s: Setting, access: Access, pin: nat, bus: nat -> Outcome)
    ensures forall d :: AppliedAll(d, [s], access, pin, bus) == Applied(d, s, access, pin, bus(s.k))
  {
    assert [s][1..] == [];
  }

  lemma ConfigSteps(d: Device, flags: Flags, access: Access, pin: nat, bus: nat -> Outcome)
    ensures var e := Applied(d, Setting(Direction, !flags.output, 0), access, pin, bus(0));
      var f := Applied(e, Setting(Polarity, flags.inverted, 1), access, pin, bus(1));
      AppliedAll(d, Settings(flags), access, pin, bus) ==
        if !bus(0).Done? then e else if !bus(1).Done? then f else AppliedAll(f, Pulls(flags), access, pin, bus)
    ensures AllDone(Settings(flags), bus) <==> bus(0).Done? && bus(1).Done? && AllDone(Pulls(flags), bus)
  {
    var all := Settings(flags);
    assert all[1..] == [Setting(Polarity, flags.inverted, 1)] + Pulls(flags) && all[1..][1..] == Pulls(flags);
    assert forall i :: 0 <= i < |Pulls(flags)| ==> Pulls(flags)[i] == all[i + 2];
  }

  lemma DirectedPins(d: Device, access: Access, pin: nat, flags: Flags, bus: nat -> Outcome, i: nat)
    requires access != OtherAccess && i < 16 && bus(0).Done? && bus(1).Done?
    ensures var e := Applied(d, Setting(Direction, !flags.output, 0), access, pin, bus(0));
      var f := Applied(e, Setting(Polarity, flags.inverted, 1), access, pin, bus(1));
      var on := access == ByPort || i == pin;
      && f.cache.direction[i] == (if on then !flags.output else d.cache.direction[i])
      && f.cache.polarity[i] == (if on then flags.inverted else d.cache.polarity[i])
      && f.cache == d.cache.(direction := f.cache.direction, polarity := f.cache.polarity)
      && f.chip == d.chip.(direction := f.cache.direction, polarity := f.cache.polarity)
      && f.inv == f.cache.polarity
  {
  }

  lemma PulledPins(d: Device, access: Access, pin: nat, flags: Flags, bus: nat -> Outcome, i: nat)
    requires access != OtherAccess && i < 16 && (flags.pull != NoPull ==> bus(2).Done?) && bus(3).Done?
    ensures var e := AppliedAll(d, Pulls(flags), access, pin, bus);
      var on := access == ByPort || i == pin;
      && e.cache.pullEnable[i] == (if on then flags.pull != NoPull else d.cache.pullEnable[i])
      && e.cache.pullSelect[i] == (if on && flags.pull != NoPull then flags.pull == Up else d.cache.pullSelect[i])
      && e.cache == d.cache.(pullEnable := e.cache.pullEnable, pullSelect := e.cache.pullSelect)
      && e.chip == d.chip.(pullEnable := e.cache.pullEnable, pullSelect := e.chip.pullSelect)
      && e.chip.pullSelect == (if flags.pull != NoPull then e.cache.pullSelect else d.chip.pullSelect)
      && e.inv == d.inv
  {
    PullSteps(d, flags, access, pin, bus);
  }

  lemma PullsStop(d: Device, access: Access, pin: nat, flags: Flags, bus: nat -> Outcome)
    ensures var e := AppliedAll(d, Pulls(flags), access, pin, bus);
      flags.pull != NoPull && !bus(2).Done? ==>
        e.cache.pullEnable == d.cache.pullEnable && e.chip.pullEnable == d.chip.pullEnable
  {
    PullSteps(d, flags, access, pin, bus);
  }

  /** A configuration whose writes all succeed: the selected pins are outputs or inputs (0 or
      1 in the direction register), inverted or not, and pulled up, down or not at all; the
      others, the output levels and an unused pull selection are as before; the chip has what
      the cache has, and the inversion mask is the polarity. */
  lemma ConfiguredPins(d: Device, access: Access, pin: nat, flags: Flags, bus: nat -> Outcome, i: nat)
    requires access != OtherAccess && i < 16
    requires bus(0).Done? && bus(1).Done? && (flags.pull != NoPull ==> bus(2).Done?) && bus(3).Done?
    ensures var e := Performed(d, Configure(access, pin, flags), bus);
      var on := access == ByPort || i == pin;
      && e.cache.direction[i] == (if on then !flags.output else d.cache.direction[i])
      && e.cache.polarity[i] == (if on then flags.inverted else d.cache.polarity[i])
      && e.cache.pullEnable[i] == (if on then flags.pull != NoPull else d.cache.pullEnable[i])
      && e.cache.pullSelect[i] == (if on && flags.pull != NoPull then flags.pull == Up else d.cache.pullSelect[i])
      && e.cache.output == d.cache.output && e.chip.output == d.chip.output
      && e.chip.direction == e.cache.direction && e.chip.polarity == e.cache.polarity == e.inv
      && e.chip.pullEnable == e.cache.pullEnable
      && e.chip.pullSelect == (if flags.pull != NoPull then e.cache.pullSelect else d.chip.pullSelect)
  {
    var e := Applied(d, Setting(Direction, !flags.output, 0), access, pin, bus(0));
    var f := Applied(e, Setting(Polarity, flags.inverted, 1), access, pin, bus(1));
    ConfigSteps(d, flags, access, pin, bus);
    DirectedPins(d, access, pin, flags, bus, i);
    PulledPins(f, access, pin, flags, bus, i);
  }

  /** A configuration stops at the first write that fails: what comes after it, direction,
      polarity, pull selection, pull enable in this order, is as before. */
  lemma ConfigStops(d: Device, access: Access, pin: nat, flags: Flags, bus: nat -> Outcome)
    requires access != OtherAccess
    ensures var e := Performed(d, Configure(access, pin, flags), bus);
      && (!bus(0).Done? ==> e.cache == d.cache.(direction := e.cache.direction)
                            && e.chip == d.chip.(direction := e.chip.direction) && e.inv == d.inv)
      && (bus(0).Done? && !bus(1).Done? ==>
            && e.cache == d.cache.(direction := e.cache.direction, polarity := e.cache.polarity)
            && e.chip == d.chip.(direction := e.chip.direction, polarity := e.chip.polarity) && e.inv == d.inv)
      && (bus(0).Done? && bus(1).Done? && flags.pull != NoPull && !bus(2).Done? ==>
            e.cache.pullEnable == d.cache.pullEnable && e.chip.pullEnable == d.chip.pullEnable)
  {
    var e := Applied(d, Setting(Direction, !flags.output, 0), access, pin, bus(0));
    var f := Applied(e, Setting(Polarity, flags.inverted, 1), access, pin, bus(1));
    ConfigSteps(d, flags, access, pin, bus);
    PullsStop(f, access, pin, flags, bus);
  }

  // ---------------------------------------------------------------- what the transfers tell

  /** The word last sent to a register, whatever became of it. */
  function LastWord(sent: seq<Transfer>, r: Register): Word {
    if sent == [] then DEFAULTS.Get(r)
    else
      var t := sent[|sent| - 1];
      if t.r == r then t.word else LastWord(sent[..|sent| - 1], r)
  }

  /** What the chip makes of the transfers. */
  function ChipWord(sent: seq<Transfer>, r: Register): Word {
    if sent == [] then DEFAULTS.Get(r)
    else
      var t, was := sent[|sent| - 1], ChipWord(sent[..|sent| - 1], r);
      if t.r == r then Taken(was, t.word, t.bus) else was
  }

  /** The last word whose transfer succeeded. */
  function Confirmed(sent: seq<Transfer>, r: Register): Word {
    if sent == [] then DEFAULTS.Get(r)
    else
      var t := sent[|sent| - 1];
      if t.r == r && t.bus.Done? then t.word else Confirmed(sent[..|sent| - 1], r)
  }

  /** The last word of which at least the first byte arrived. */
  function Arrived(sent: seq<Transfer>, r: Register): Word {
    if sent == [] then DEFAULTS.Get(r)
    else
      var t := sent[|sent| - 1];
      if t.r == r && !t.bus.Refused? then t.word else Arrived(sent[..|sent| - 1], r)
  }

  /** Cache, chip and inversion mask are functions of the transfers made. */
  ghost predicate Told(d: Device) {
    && (forall r :: d.cache.Get(r) == LastWord(d.sent, r))
    && (forall r :: d.chip.Get(r) == ChipWord(d.sent, r))
    && d.inv == Confirmed(d.sent, Polarity)
  }

  /** The cache may run ahead of the transfers in one register, which is then sent. */
  lemma SentTold(d: Device, cache: Registers, r: Register, bus: Outcome)
    requires Told(d) && cache == d.cache.Set(r, cache.Get(r))
    ensures var e := Sent(d.(cache := cache), r, bus);
      && (forall q :: e.cache.Get(q) == LastWord(e.sent, q))
      && (forall q :: e.chip.Get(q) == ChipWord(e.sent, q))
      && Confirmed(e.sent, Polarity) == if r == Polarity && bus.Done? then cache.polarity else d.inv
  {
    var e := Sent(d.(cache := cache), r, bus);
    assert e.sent[..|d.sent|] == d.sent;
  }

  lemma {:induction false} AppliedTold(d: Device, settings: seq<Setting>, access: Access, pin: nat, bus: nat -> Outcome)
    requires Told(d)
    ensures Told(AppliedAll(d, settings, access, pin, bus))
    decreases |settings|
  {
    if settings != [] {
      var s := settings[0];
      var cache := d.cache.Set(s.r, Leveled(d.cache.Get(s.r), access, pin, s.level));
      SentTold(d, cache, s.r, bus(s.k));
      AppliedTold(Applied(d, s, access, pin, bus(s.k)), settings[1..], access, pin, bus);
    }
  }

  lemma {:induction false} OperatedTold(master: bool, ops: seq<Operation>, bus: nat -> nat -> Outcome)
    ensures Told(OperatedAll(START, master, ops, bus))
  {
    if ops != [] {
      var k := |ops| - 1;
      var d := OperatedAll(START, master, ops[..k], bus);
      OperatedTold(master, ops[..k], bus);
      match ops[k]
      case Configure(access, pin, flags) => AppliedTold(d, Settings(flags), access, pin, bus(k));
      case WriteLevels(access, pin, value) =>
        SentTold(d, d.cache.(output := Written(d.cache.output, d.inv, access, pin, value)), Output, bus(k)(0));
    }
  }

  /** A transfer without its word. */
  datatype Attempt = Attempt(r: Register, bus: Outcome)

  function Attempts(sent: seq<Transfer>): (a: seq<Attempt>)
    ensures |a| == |sent|
  {
    if sent == [] then [] else Attempts(sent[..|sent| - 1]) + [Attempt(sent[|sent| - 1].r, sent[|sent| - 1].bus)]
  }

  /** The transfers of a configuration: up to and including the first failure. */
  function Tried(settings: seq<Setting>, bus: nat -> Outcome): seq<Attempt> {
    if settings == [] then []
    else
      var s := settings[0];
      [Attempt(s.r, bus(s.k))] + if bus(s.k).Done? then Tried(settings[1..], bus) else []
  }

  function TriedBy(master: bool, op: Operation, bus: nat -> Outcome): seq<Attempt> {
    if !master || op.access.OtherAccess? then []
    else if op.Configure? then Tried(Settings(op.flags), bus)
    else [Attempt(Output, bus(0))]
  }

  /** The transfers of a run, from its operations and the bus alone. */
  function TriedByAll(master: bool, ops: seq<Operation>, bus: nat -> nat -> Outcome): seq<Attempt> {
    if ops == [] then []
    else
      var k := |ops| - 1;
      TriedByAll(master, ops[..k], bus) + TriedBy(master, ops[k], bus(k))
  }

  lemma AttemptsSnoc(sent: seq<Transfer>, t: Transfer)
    ensures Attempts(sent + [t]) == Attempts(sent) + [Attempt(t.r, t.bus)]
  {
    assert (sent + [t])[..|sent|] == sent;
  }

  lemma AppliedTry(d: Device, s: Setting, access: Access, pin: nat, bus: Outcome)
    ensures Attempts(Applied(d, s, access, pin, bus).sent) == Attempts(d.sent) + [Attempt(s.r, bus)]
  {
    AttemptsSnoc(d.sent, Applied(d, s, access, pin, bus).sent[|d.sent|]);
  }

  lemma {:induction false} AppliedTries(d: Device, settings: seq<Setting>, access: Access, pin: nat,
                                        bus: nat -> Outcome)
    ensures Attempts(AppliedAll(d, settings, access, pin, bus).sent) == Attempts(d.sent) + Tried(settings, bus)
    decreases |settings|
  {
    if settings != [] {
      var s := settings[0];
      AppliedTry(d, s, access, pin, bus(s.k));
      AppliedTries(Applied(d, s, access, pin, bus(s.k)), settings[1..], access, pin, bus);
    }
  }

  lemma {:induction false} OperatedTries(master: bool, ops: seq<Operation>, bus: nat -> nat -> Outcome)
    ensures Attempts(OperatedAll(START, master, ops, bus).sent) == TriedByAll(master, ops, bus)
  {
    if ops != [] {
      var k := |ops| - 1;
      var d := OperatedAll(START, master, ops[..k], bus);
      OperatedTries(master, ops[..k], bus);
      match ops[k]
      case Configure(access, pin, flags) => AppliedTries(d, Settings(flags), access, pin, bus(k));
      case WriteLevels(access, pin, value) =>
        var e := Performed(d, ops[k], bus(k));
        AttemptsSnoc(d.sent, e.sent[|d.sent|]);
    }
  }

  // ---------------------------------------------------------------- theorems

  /** The last attempt on a register succeeded, or there was none. */
  predicate Settled(attempts: seq<Attempt>, r: Register) {
    if attempts == [] then true
    else
      var a := attempts[|attempts| - 1];
      if a.r == r then a.bus.Done? else Settled(attempts[..|attempts| - 1], r)
  }

  lemma {:induction false} SettledAgrees(sent: seq<Transfer>, r: Register)
    requires Settled(Attempts(sent), r)
    ensures LastWord(sent, r) == ChipWord(sent, r)
  {
    if sent != [] && sent[|sent| - 1].r != r {
      assert Attempts(sent)[..|sent| - 1] == Attempts(sent[..|sent| - 1]);
      SettledAgrees(sent[..|sent| - 1], r);
    }
  }

  /** Only the first byte can be ahead of what was confirmed. */
  lemma {:induction false} ChipHalves(sent: seq<Transfer>, r: Register)
    ensures ChipWord(sent, r) == Halves(Arrived(sent, r), Confirmed(sent, r))
  {
    if sent != [] {
      ChipHalves(sent[..|sent| - 1], r);
    }
  }

  /** What became of the words meant for a register: the last one sent, the last of which
      the first byte arrived, and the last one confirmed. */
  datatype View = View(word: Word, arrived: Word, confirmed: Word)

  function Noted(v: View, word: Word, bus: Outcome): View {
    View(word, if bus.Refused? then v.arrived else word, if bus.Done? then word else v.confirmed)
  }

  /** A configuration as one register sees it. */
  function Configured(v: View, settings: seq<Setting>, access: Access, pin: nat, bus: nat -> Outcome, r: Register): View
    decreases |settings|
  {
    if settings == [] then v
    else
      var s := settings[0];
      var w := if s.r == r then Noted(v, Leveled(v.word, access, pin, s.level), bus(s.k)) else v;
      if bus(s.k).Done? then Configured(w, settings[1..], access, pin, bus, r) else w
  }

  /** A run as one register sees it, from its operations and the bus alone. */
  function Seen(master: bool, ops: seq<Operation>, bus: nat -> nat -> Outcome, r: Register): View {
    if ops == [] then View(DEFAULTS.Get(r), DEFAULTS.Get(r), DEFAULTS.Get(r))
    else
      var k := |ops| - 1;
      var v := Seen(master, ops[..k], bus, r);
      if !master || ops[k].access.OtherAccess? then v
      else match ops[k]
        case Configure(access, pin, flags) => Configured(v, Settings(flags), access, pin, bus(k), r)
        case WriteLevels(access, pin, value) =>
          var inv := Seen(master, ops[..k], bus, Polarity).confirmed;
          if r == Output then Noted(v, Written(v.word, inv, access, pin, value), bus(k)(0)) else v
  }

  function ViewOf(sent: seq<Transfer>, r: Register): View {
    View(LastWord(sent, r), Arrived(sent, r), Confirmed(sent, r))
  }

  lemma ViewNoted(sent: seq<Transfer>, t: Transfer, r: Register)
    ensures ViewOf(sent + [t], r) == if t.r == r then Noted(ViewOf(sent, r), t.word, t.bus) else ViewOf(sent, r)
  {
    assert (sent + [t])[..|sent|] == sent;
  }

  lemma {:induction false} ViewConfigured(d: Device, settings: seq<Setting>, access: Access, pin: nat,
                                          bus: nat -> Outcome, r: Register)
    requires Told(d)
    ensures ViewOf(AppliedAll(d, settings, access, pin, bus).sent, r)
         == Configured(ViewOf(d.sent, r), settings, access, pin, bus, r)
    decreases |settings|
  {
    if settings != [] {
      var s := settings[0];
      var e := Applied(d, s, access, pin, bus(s.k));
      AppliedNoted(d, s, access, pin, bus(s.k), r);
      ViewConfigured(e, settings[1..], access, pin, bus, r);
    }
  }

  lemma AppliedNoted(d: Device, s: Setting, access: Access, pin: nat, bus: Outcome, r: Register)
    requires Told(d)
    ensures var e := Applied(d, s, access, pin, bus);
      && Told(e)
      && ViewOf(e.sent, r) ==
           if s.r == r then Noted(ViewOf(d.sent, r), Leveled(LastWord(d.sent, r), access, pin, s.level), bus)
           else ViewOf(d.sent, r)
  {
    var cache := d.cache.Set(s.r, Leveled(d.cache.Get(s.r), access, pin, s.level));
    SentTold(d, cache, s.r, bus);
    ViewNoted(d.sent, Transfer(s.r, cache.Get(s.r), bus), r);
  }

  lemma ViewWritten(d: Device, access: Access, pin: nat, value: Word, bus: nat -> Outcome, r: Register)
    requires Told(d)
    ensures var v := ViewOf(d.sent, r);
      var word := Written(LastWord(d.sent, Output), Confirmed(d.sent, Polarity), access, pin, value);
      ViewOf(Performed(d, WriteLevels(access, pin, value), bus).sent, r)
        == if r == Output then Noted(v, word, bus(0)) else v
  {
    assert d.cache.Get(Output) == LastWord(d.sent, Output);
    ViewNoted(d.sent, Transfer(Output, Written(d.cache.output, d.inv, access, pin, value), bus(0)), r);
  }

  /** After every run the transfers are those the register sees. */
  lemma {:induction false} SeenTold(master: bool, ops: seq<Operation>, bus: nat -> nat -> Outcome, r: Register)
    ensures ViewOf(OperatedAll(START, master, ops, bus).sent, r) == Seen(master, ops, bus, r)
  {
    if ops != [] {
      var k := |ops| - 1;
      var d := OperatedAll(START, master, ops[..k], bus);
      OperatedTold(master, ops[..k], bus);
      SeenTold(master, ops[..k], bus, r);
      SeenTold(master, ops[..k], bus, Polarity);
      match ops[k]
      case Configure(access, pin, flags) => ViewConfigured(d, Settings(flags), access, pin, bus(k), r);
      case WriteLevels(access, pin, value) => ViewWritten(d, access, pin, value, bus(k), r);
    }
  }

  /** For every sequence of operations and every bus: the cache holds the word last sent, the
      chip the first byte last arrived and the second byte last confirmed. */
  lemma DeviceSeen(master: bool, ops: seq<Operation>, bus: nat -> nat -> Outcome, r: Register)
    ensures var d, v := OperatedAll(START, master, ops, bus), Seen(master, ops, bus, r);
      && d.cache.Get(r) == v.word && d.chip.Get(r) == Halves(v.arrived, v.confirmed)
      && d.inv == Seen(master, ops, bus, Polarity).confirmed
  {
    var d := OperatedAll(START, master, ops, bus);
    OperatedTold(master, ops, bus);
    SeenTold(master, ops, bus, r);
    SeenTold(master, ops, bus, Polarity);
    ChipHalves(d.sent, r);
  }

  /** A register is in the cache as it is in the chip exactly when the first byte last sent is
      the one that last arrived and the second byte last sent is the one last confirmed. */
  lemma CacheExactly(master: bool, ops: seq<Operation>, bus: nat -> nat -> Outcome, r: Register)
    ensures var d, v := OperatedAll(START, master, ops, bus), Seen(master, ops, bus, r);
      d.cache.Get(r) == d.chip.Get(r) <==> v.word[..8] == v.arrived[..8] && v.word[8..] == v.confirmed[8..]
  {
    var v := Seen(master, ops, bus, r);
    DeviceSeen(master, ops, bus, r);
    SplitEqual(v.word, v.arrived, v.confirmed);
  }

  lemma SplitEqual(w: Word, a: Word, c: Word)
    ensures w == Halves(a, c) <==> w[..8] == a[..8] && w[8..] == c[8..]
  {
    assert w == w[..8] + w[8..];
    assert Halves(a, c)[..8] == a[..8] && Halves(a, c)[8..] == c[8..];
  }

  /** In particular a register whose last write succeeded is in the cache as it is in the
      chip. */
  lemma CacheAgrees(master: bool, ops: seq<Operation>, bus: nat -> nat -> Outcome, r: Register)
    requires Settled(TriedByAll(master, ops, bus), r)
    ensures var d := OperatedAll(START, master, ops, bus); d.cache.Get(r) == d.chip.Get(r)
  {
    OperatedTold(master, ops, bus);
    OperatedTries(master, ops, bus);
    SettledAgrees(OperatedAll(START, master, ops, bus).sent, r);
  }

  lemma HalvesAgree(a: Word, c: Word)
    ensures Halves(a, c) == c <==> a[..8] == c[..8]
  {
    assert Halves(a, c)[..8] == a[..8] && c == c[..8] + c[8..];
  }

  /** For every sequence of operations and every bus: the inversion mask is the last polarity
      the chip confirmed, and it is the chip's polarity exactly when the first byte that last
      arrived there is its own. */
  lemma PolarityExactly(master: bool, ops: seq<Operation>, bus: nat -> nat -> Outcome)
    ensures var d, v := OperatedAll(START, master, ops, bus), Seen(master, ops, bus, Polarity);
      && d.inv == v.confirmed
      && (d.inv == d.chip.polarity <==> v.arrived[..8] == v.confirmed[..8])
  {
    var v := Seen(master, ops, bus, Polarity);
    DeviceSeen(master, ops, bus, Polarity);
    HalvesAgree(v.arrived, v.confirmed);
    assert OperatedAll(START, master, ops, bus).chip.Get(Polarity) == Halves(v.arrived, v.confirmed);
  }

  /** The last attempt on a register that was not refused was not torn. */
  predicate Whole(attempts: seq<Attempt>, r: Register) {
    if attempts == [] then true
    else
      var a := attempts[|attempts| - 1];
      if a.r == r && !a.bus.Refused? then a.bus.Done? else Whole(attempts[..|attempts| - 1], r)
  }

  lemma {:induction false} WholeArrived(sent: seq<Transfer>, r: Register)
    requires Whole(Attempts(sent), r)
    ensures Arrived(sent, r) == Confirmed(sent, r)
  {
    if sent != [] && !(sent[|sent| - 1].r == r && !sent[|sent| - 1].bus.Refused?) {
      assert Attempts(sent)[..|sent| - 1] == Attempts(sent[..|sent| - 1]);
      WholeArrived(sent[..|sent| - 1], r);
    }
  }

  /** In particular they agree whatever transfers are refused, as long as none is torn. */
  lemma PolarityFollows(master: bool, ops: seq<Operation>, bus: nat -> nat -> Outcome)
    requires Whole(TriedByAll(master, ops, bus), Polarity)
    ensures var d := OperatedAll(START, master, ops, bus); d.inv == d.chip.polarity
  {
    PolarityExactly(master, ops, bus);
    SeenTold(master, ops, bus, Polarity);
    OperatedTries(master, ops, bus);
    WholeArrived(OperatedAll(START, master, ops, bus).sent, Polarity);
  }

  /** A torn polarity write after which they differ. */
  lemma PolarityTorn()
    ensures var ops := [Configure(ByPort, 0, Flags(true, true, NoPull))];
      var bus: nat -> nat -> Outcome := _ => k => if k == 1 then Torn(-EIO) else Done;
      var d := OperatedAll(START, true, ops, bus);
      d.inv != d.chip.polarity
  {
    var flags := Flags(true, true, NoPull);
    var ops := [Configure(ByPort, 0, flags)];
    var bus: nat -> nat -> Outcome := _ => k => if k == 1 then Torn(-EIO) else Done;
    assert ops[..0] == [];
    ConfigSteps(START, flags, ByPort, 0, bus(0));
    var e := Applied(START, Setting(Direction, false, 0), ByPort, 0, Done);
    var f := Applied(e, Setting(Polarity, true, 1), ByPort, 0, Torn(-EIO));
    assert OperatedAll(START, true, ops, bus) == f;
    assert f.chip.polarity[0] && !f.inv[0];
  }

  // ---------------------------------------------------------------- levels

  /** The output register after a run of writes that all take effect. */
  function Requested(out: Word, inv: Word, ops: seq<Operation>): Word
    requires forall k :: 0 <= k < |ops| ==> ops[k].WriteLevels?
  {
    if ops == [] then out
    else
      var k := |ops| - 1;
      Written(Requested(out, inv, ops[..k]), inv, ops[k].access, ops[k].pin, ops[k].value)
  }

  /** A run of writes: the cache has them all, failed ones included, and the first one to
      succeed afterwards delivers them to the chip. */
  lemma {:induction false} WritesDelivered(d: Device, ops: seq<Operation>, bus: nat -> nat -> Outcome)
    requires forall k :: 0 <= k < |ops| ==> ops[k].WriteLevels? && !ops[k].access.OtherAccess?
    ensures var e := OperatedAll(d, true, ops, bus);
      && e.inv == d.inv && e.cache.output == Requested(d.cache.output, d.inv, ops)
      && (ops != [] && bus(|ops| - 1)(0).Done? ==> e.chip.output == Requested(d.cache.output, d.inv, ops))
  {
    if ops != [] {
      WritesDelivered(d, ops[..|ops| - 1], bus);
    }
  }

  /** Writing the pins of a sequence, each with its bit of value. */
  function PinByPin(value: Word, pins: seq<nat>): (ops: seq<Operation>)
    requires forall k :: 0 <= k < |pins| ==> pins[k] < 16
    ensures |ops| == |pins| && forall k :: 0 <= k < |ops| ==> ops[k].WriteLevels?
  {
    if pins == [] then []
    else
      var k := |pins| - 1;
      PinByPin(value, pins[..k]) + [WriteLevels(ByPin, pins[k], seq(16, _ => value[pins[k]]))]
  }

  lemma {:induction false} PinByPinLevels(out: Word, inv: Word, value: Word, pins: seq<nat>, i: nat)
    requires (forall k :: 0 <= k < |pins| ==> pins[k] < 16) && i < 16
    ensures Requested(out, inv, PinByPin(value, pins))[i] == if i in pins then value[i] != inv[i] else out[i]
  {
    if pins != [] {
      var k := |pins| - 1;
      var ops := PinByPin(value, pins);
      assert ops[..k] == PinByPin(value, pins[..k]);
      assert pins == pins[..k] + [pins[k]];
      PinByPinLevels(out, inv, value, pins[..k], i);
      WrittenPins(Requested(out, inv, ops[..k]), inv, ByPin, pins[k], ops[k].value, i);
    }
  }

  /** One port write leaves the register that pin writes of its bits leave, in any order,
      exactly when the pins left unwritten already stand as the port write would set them;
      so the sixteen pins always do. */
  lemma PortIsPins(out: Word, inv: Word, value: Word, pins: seq<nat>, pin: nat)
    requires forall k :: 0 <= k < |pins| ==> pins[k] < 16
    ensures Requested(out, inv, PinByPin(value, pins)) == Written(out, inv, ByPort, pin, value)
      <==> forall i :: 0 <= i < 16 && i !in pins ==> out[i] == (value[i] != inv[i])
  {
    forall i: nat | i < 16
      ensures Requested(out, inv, PinByPin(value, pins))[i] == if i in pins then value[i] != inv[i] else out[i]
      ensures Written(out, inv, ByPort, pin, value)[i] == (value[i] != inv[i])
    {
      PinByPinLevels(out, inv, value, pins, i);
      WrittenPins(out, inv, ByPort, pin, value, i);
    }
  }
}
