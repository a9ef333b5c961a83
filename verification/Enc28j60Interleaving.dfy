/** All interleavings of initialisation, transmitters and the receive thread of the ENC28J60
    driver, at the granularity of single SPI transfers. */
module Enc28j60Interleaving {
  import opened CTypes
  import opened Enc28j60Banks

  const NOBODY := -1

  /** Where a thread is in its current operation: not begun, holding spi_sem, having read
      ECON1 to select a bank, or about to give spi_sem. */
  datatype Stage = Idle | Entered | Latched(v: U8) | Leaving

  /** bank is the bank the thread has selected under tx_rx_sem. */
  datatype Thread = Thread(todo: seq<Op>, stage: Stage, bank: int)

  datatype State = State(threads: seq<Thread>, lock: int, spi: int, econ1: U8)

  /** A thread moves; an idle thread makes a call; the device ends a transmission and clears
      its request bit. */
  datatype Action = Move(i: nat) | Start(i: nat, call: Call) | Finish

  /** The effect of a single-transfer operation on ECON1. */
  function Effect(op: Op, v: U8): U8 {
    if op.SetBit? && op.addr == ECON1 then WithBit(v, op.bit)
    else if op.ClearBit? && op.addr == ECON1 then WithoutBit(v, op.bit)
    else v
  }

  /** A thread's move: the thread, the holders of the semaphores and ECON1 afterwards. */
  datatype Moved = Moved(t: Thread, lock: int, spi: int, econ1: U8)

  function MoveLocked(t: Thread, i: nat, lock: int, spi: int, econ1: U8): Moved
    requires t.todo != []
  {
    var op := t.todo[0];
    match t.stage
    case Idle => if spi == NOBODY then Moved(t.(stage := Entered), lock, i, econ1) else Moved(t, lock, spi, econ1)
    case Entered =>
      if op.SetBank? then Moved(t.(stage := Latched(econ1)), lock, spi, econ1)
      else Moved(t.(stage := Leaving), lock, spi, Effect(op, econ1))
    case Latched(v) =>
      if op.SetBank? then Moved(t.(stage := Leaving, bank := Bank(op.addr)), lock, spi, Selected(v, op.addr))
      else Moved(t, lock, spi, econ1)
    case Leaving => Moved(t.(todo := t.todo[1..], stage := Idle), lock, NOBODY, econ1)
  }

  function MoveThread(t: Thread, i: nat, lock: int, spi: int, econ1: U8): Moved {
    if t.todo == [] then Moved(t, lock, spi, econ1)
    else if t.todo[0].Lock? then
      if lock == NOBODY then Moved(Thread(t.todo[1..], Idle, UNKNOWN), i, spi, econ1) else Moved(t, lock, spi, econ1)
    else if t.todo[0].Unlock? then Moved(Thread(t.todo[1..], Idle, UNKNOWN), NOBODY, spi, econ1)
    else MoveLocked(t, i, lock, spi, econ1)
  }

  function Next(s: State, a: Action): State {
    match a
    case Move(i) =>
      if i < |s.threads| then
        var m := MoveThread(s.threads[i], i, s.lock, s.spi, s.econ1);
        State(s.threads[i := m.t], m.lock, m.spi, m.econ1)
      else s
    case Start(i, call) =>
      if i < |s.threads| && s.threads[i].todo == [] then
        s.(threads := s.threads[i := s.threads[i].(todo := Program(call))])
      else s
    case Finish => s.(econ1 := WithoutBit(s.econ1, TXRTS))
  }

  function Run(s: State, actions: seq<Action>): State {
    if actions == [] then s else Next(Run(s, actions[..|actions| - 1]), actions[|actions| - 1])
  }

  datatype Boot = Boot(threads: nat, fullDuplex: bool, polls: nat, phy1: nat, phy2: nat)

  /** Thread 0 runs the initialisation; until it gives tx_rx_sem it is in effect its holder.
      Any number of others are idle. */
  function Booting(b: Boot): State {
    State([Thread(InitDevice(b.fullDuplex, b.polls, b.phy1, b.phy2), Idle, UNKNOWN)]
          + seq(b.threads, _ => Thread([], Idle, UNKNOWN)), 0, NOBODY, 0)
  }

  // ---------------------------------------------------------------- what every step keeps

  /** The operations a thread has still to perform. */
  function Rest(t: Thread): seq<Op> { if t.stage.Leaving? && t.todo != [] then t.todo[1..] else t.todo }

  /** ECON1 values that differ at most in the bit the device clears by itself. */
  predicate Similar(v: U8, w: U8) { WithoutBit(v, TXRTS) == WithoutBit(w, TXRTS) }

  ghost predicate ThreadOk(t: Thread, holds: bool, spi: bool, econ1: U8) {
    && (t.stage.Idle? <==> !spi)
    && (!t.stage.Idle? ==> t.todo != [] && !t.todo[0].Lock? && !t.todo[0].Unlock?)
    && (t.stage.Latched? ==> t.todo[0].SetBank? && Similar(t.stage.v, econ1))
    && Proper(Rest(t), Known(holds, t.bank))
    && (holds && t.bank != UNKNOWN ==> econ1 % 4 == t.bank)
    && (!holds ==> t.bank == UNKNOWN)
  }

  ghost predicate Inv(s: State) {
    && (forall i :: 0 <= i < |s.threads| ==> ThreadOk(s.threads[i], s.lock == i, s.spi == i, s.econ1))
    && NOBODY <= s.lock < |s.threads| && NOBODY <= s.spi < |s.threads|
  }

  lemma BankBits(v: U8, b: Bit)
    ensures WithBit(v, b) % 4 == v % 4 && WithoutBit(v, b) % 4 == v % 4
  {
  }

  lemma SelectedBank(v: U8, addr: U16)
    requires Bank(addr) < 4
    ensures Selected(v, addr) % 4 == Bank(addr)
  {
  }

  /** The thread that moves. */
  lemma MoverOk(t: Thread, i: nat, lock: int, spi: int, econ1: U8)
    requires ThreadOk(t, lock == i, spi == i, econ1)
    ensures var m := MoveThread(t, i, lock, spi, econ1); ThreadOk(m.t, m.lock == i, m.spi == i, m.econ1)
  {
    if t.todo != [] && !t.todo[0].Lock? && !t.todo[0].Unlock? {
      var op := t.todo[0];
      if t.stage.Entered? && (op.SetBit? || op.ClearBit?) { BankBits(econ1, op.bit); }
      if t.stage.Latched? { SelectedBank(t.stage.v, op.addr); }
    }
  }

  /** What a move leaves alone for the others. */
  ghost predicate Harmless(i: nat, lock: int, spi: int, econ1: U8, m: Moved) {
    && (m.lock == lock || (lock == NOBODY && m.lock == i) || (lock == i && m.lock == NOBODY))
    && (m.spi == spi || (spi == NOBODY && m.spi == i) || (spi == i && m.spi == NOBODY))
    && (m.econ1 != econ1 ==> spi == i)
    && (m.econ1 % 4 != econ1 % 4 ==> lock == i)
  }

  lemma MoverHarmless(t: Thread, i: nat, lock: int, spi: int, econ1: U8)
    requires ThreadOk(t, lock == i, spi == i, econ1)
    ensures Harmless(i, lock, spi, econ1, MoveThread(t, i, lock, spi, econ1))
  {
    if t.todo != [] && t.stage.Entered? {
      var op := t.todo[0];
      if op.SetBit? || op.ClearBit? { BankBits(econ1, op.bit); }
    }
  }

  lemma BystanderOk(t: Thread, j: nat, i: nat, lock: int, spi: int, econ1: U8, m: Moved)
    requires i != j && ThreadOk(t, lock == j, spi == j, econ1) && Harmless(i, lock, spi, econ1, m)
    ensures ThreadOk(t, m.lock == j, m.spi == j, m.econ1)
  {
  }

  lemma MoveKeeps(s: State, i: nat)
    requires Inv(s) && i < |s.threads|
    ensures Inv(Next(s, Move(i)))
  {
    var m := MoveThread(s.threads[i], i, s.lock, s.spi, s.econ1);
    MoverOk(s.threads[i], i, s.lock, s.spi, s.econ1);
    MoverHarmless(s.threads[i], i, s.lock, s.spi, s.econ1);
    forall j | 0 <= j < |s.threads| && j != i ensures ThreadOk(s.threads[j], m.lock == j, m.spi == j, m.econ1) {
      BystanderOk(s.threads[j], j, i, s.lock, s.spi, s.econ1, m);
    }
  }

  lemma FinishOk(t: Thread, holds: bool, spi: bool, econ1: U8)
    requires ThreadOk(t, holds, spi, econ1)
    ensures ThreadOk(t, holds, spi, WithoutBit(econ1, TXRTS))
  {
    BankBits(econ1, TXRTS);
  }

  lemma StartOk(t: Thread, holds: bool, spi: bool, econ1: U8, ops: seq<Op>)
    requires ThreadOk(t, holds, spi, econ1) && t.todo == [] && Proper(ops, Known(false, UNKNOWN))
    ensures ThreadOk(t.(todo := ops), holds, spi, econ1)
  {
  }

  lemma NextKeeps(s: State, a: Action)
    requires Inv(s)
    ensures Inv(Next(s, a))
  {
    match a
    case Move(i) => if i < |s.threads| { MoveKeeps(s, i); }
    case Start(i, call) =>
      ProgramOk(call);
      if i < |s.threads| && s.threads[i].todo == [] {
        StartOk(s.threads[i], s.lock == i, s.spi == i, s.econ1, Program(call));
      }
    case Finish =>
      forall j | 0 <= j < |s.threads|
        ensures ThreadOk(s.threads[j], s.lock == j, s.spi == j, WithoutBit(s.econ1, TXRTS))
      {
        FinishOk(s.threads[j], s.lock == j, s.spi == j, s.econ1);
      }
  }

  lemma BootOk(b: Boot)
    ensures Inv(Booting(b))
  {
    InitOk(b.fullDuplex, b.polls, b.phy1, b.phy2);
  }

  lemma {:induction false} RunKeeps(b: Boot, actions: seq<Action>)
    ensures Inv(Run(Booting(b), actions))
  {
    if actions == [] {
      BootOk(b);
    } else {
      RunKeeps(b, actions[..|actions| - 1]);
      NextKeeps(Run(Booting(b), actions[..|actions| - 1]), actions[|actions| - 1]);
    }
  }

  /** In every interleaving, during initialisation and after it: when a thread is about to
      read or write a banked register, the bank selected in ECON1 is the register's; only
      the thread holding spi_sem is in a transfer; and when a thread writes ECON1 back to
      select a bank, the upper six bits are those ECON1 has, except that a transmit request
      the device cleared after the read is set again: they are kept exactly when the request
      is as it was read. */
  lemma BankDiscipline(b: Boot, actions: seq<Action>, i: nat)
    requires i < |Run(Booting(b), actions).threads|
    ensures var s := Run(Booting(b), actions);
      var t := s.threads[i];
      && (!t.stage.Idle? <==> s.spi == i)
      && (!t.stage.Idle? ==> t.todo != [])
      && (t.stage.Entered? && t.todo[0].Access? ==> InBank(t.todo[0].addr, s.econ1))
      && (t.stage.Latched? ==>
            && t.todo[0].SetBank? && s.lock == i
            && KeepsUpper(t.stage.v, s.econ1, t.todo[0].addr, Next(s, Move(i)).econ1)
            && (Next(s, Move(i)).econ1 / 4 == s.econ1 / 4 <==> (Has(t.stage.v, TXRTS) <==> Has(s.econ1, TXRTS))))
  {
    RunKeeps(b, actions);
    var s := Run(Booting(b), actions);
    var t := s.threads[i];
    assert ThreadOk(t, s.lock == i, s.spi == i, s.econ1);
    if t.stage.Latched? {
      SelectedUpper(t.stage.v, s.econ1, t.todo[0].addr);
      UpperExactly(t.stage.v, s.econ1, t.todo[0].addr, Next(s, Move(i)).econ1);
    }
  }

  predicate InBank(addr: U16, econ1: U8) { Common(addr) || econ1 % 4 == Bank(addr) }

  /** w selects the bank of addr and otherwise is econ1, but for the transmit request, which
      is as it was in v. */
  predicate KeepsUpper(v: U8, econ1: U8, addr: U16, w: U8) {
    && w % 4 == Bank(addr)
    && WithoutBit(w, TXRTS) / 4 == WithoutBit(econ1, TXRTS) / 4
    && (Has(w, TXRTS) <==> Has(v, TXRTS))
  }

  /** All upper bits are kept exactly when the transmit request is as it was read. */
  lemma UpperExactly(v: U8, econ1: U8, addr: U16, w: U8)
    requires KeepsUpper(v, econ1, addr, w)
    ensures w / 4 == econ1 / 4 <==> (Has(v, TXRTS) <==> Has(econ1, TXRTS))
  {
    if w / 4 == econ1 / 4 { TxrtsUpper(econ1, w); }
  }

  lemma SelectedUpper(v: U8, econ1: U8, addr: U16)
    requires Similar(v, econ1) && Bank(addr) < 4
    ensures KeepsUpper(v, econ1, addr, Selected(v, addr))
  {
    SelectedParts(v, Bank(addr), addr);
    TxrtsUpper(v, Selected(v, addr));
    TxrtsUpper(v, v);
    TxrtsUpper(econ1, econ1);
  }

  /** Bit 3 is one of the upper six. */
  lemma TxrtsUpper(v: U8, w: U8)
    requires v / 4 == w / 4
    ensures Has(w, TXRTS) <==> Has(v, TXRTS)
    ensures WithoutBit(w, TXRTS) / 4 == WithoutBit(v, TXRTS) / 4
  {
    assert v / 8 == v / 4 / 2 && w / 8 == w / 4 / 2;
  }

  // ---------------------------------------------------------------- reception stays enabled

  /** The program will enable reception before it gives tx_rx_sem. */
  predicate WillEnable(ops: seq<Op>) {
    ops != [] && (ops[0] == SetBit(ECON1, RXEN) || (!ops[0].Unlock? && WillEnable(ops[1..])))
  }

  lemma {:induction false} WillEnableJoin(a: seq<Op>, b: seq<Op>)
    requires WillEnable(b) && forall i :: 0 <= i < |a| ==> !a[i].Unlock?
    ensures WillEnable(a + b)
    decreases |a|
  {
    if a == [] {
      assert a + b == b;
    } else {
      WillEnableJoin(a[1..], b);
      assert (a + b)[1..] == a[1..] + b;
    }
  }

  lemma {:induction false} NoUnlock(addrs: seq<U16>)
    ensures forall i :: 0 <= i < |Accesses(addrs)| ==> !Accesses(addrs)[i].Unlock?
  {
    if addrs != [] { NoUnlock(addrs[1..]); }
  }

  lemma {:induction false} NoUnlockPoll(addr: U16, times: nat)
    ensures forall i :: 0 <= i < |Poll(addr, times)| ==> !Poll(addr, times)[i].Unlock?
  {
    if times > 0 { NoUnlockPoll(addr, times - 1); }
  }

  lemma SectionEnables(bank: U16, addrs: seq<U16>, rest: seq<Op>)
    requires WillEnable(rest)
    ensures WillEnable(Section(bank, addrs) + rest)
  {
    NoUnlock(addrs);
    WillEnableJoin(Section(bank, addrs), rest);
  }

  lemma PhyEnables(polls: nat, rest: seq<Op>)
    requires WillEnable(rest)
    ensures WillEnable(WritePhy(polls) + rest)
  {
    var poll := Poll(MISTAT, polls);
    NoUnlockPoll(MISTAT, polls);
    WillEnableJoin(poll, rest);
    SectionEnables(MISTAT, [], poll + rest);
    SectionEnables(MIREGADR, [MIREGADR, MIWRL, MIWRH], Section(MISTAT, []) + (poll + rest));
    assert WritePhy(polls) + rest
        == Section(MIREGADR, [MIREGADR, MIWRL, MIWRH]) + (Section(MISTAT, []) + (poll + rest));
  }

  lemma MacEnables(fullDuplex: bool, rest: seq<Op>)
    requires WillEnable(rest)
    ensures WillEnable(InitMac(fullDuplex) + rest)
  {
    var own: seq<U16> :=
      [MACON1, MACON1, MACON3, MAIPGL] + if fullDuplex then [MAIPGH, MABBIPG] else [MABBIPG, MACON4];
    var mac: seq<U16> := [MAADR0, MAADR1, MAADR2, MAADR3, MAADR4, MAADR5];
    SectionEnables(MAADR0, mac, rest);
    SectionEnables(MACON1, own, Section(MAADR0, mac) + rest);
    assert InitMac(fullDuplex) + rest == Section(MACON1, own) + (Section(MAADR0, mac) + rest);
  }

  lemma BuffersEnable(polls: nat, rest: seq<Op>)
    requires WillEnable(rest)
    ensures WillEnable(InitBuffers(polls) + rest)
  {
    var regs: seq<U16> := [ERXSTL, ERXSTH, ERXRDPTL, ERXRDPTH, ERXNDL, ERXNDH, ETXSTL, ETXSTH,
                           ETXNDL, ETXNDH, ERDPTL, ERDPTH, EWRPTL, EWRPTH];
    var poll := Poll(ESTAT, polls);
    NoUnlockPoll(ESTAT, polls);
    WillEnableJoin(poll, rest);
    SectionEnables(ERXFCON, [ERXFCON], poll + rest);
    SectionEnables(ERXSTL, regs, Section(ERXFCON, [ERXFCON]) + (poll + rest));
    assert InitBuffers(polls) + rest == Section(ERXSTL, regs) + (Section(ERXFCON, [ERXFCON]) + (poll + rest));
  }

  lemma InitEnables(b: Boot)
    ensures WillEnable(InitDevice(b.fullDuplex, b.polls, b.phy1, b.phy2))
  {
    assert EnableDevice()[1..][1..] == [SetBit(ECON1, RXEN), Unlock];
    assert WillEnable(EnableDevice()[1..]);
    PhyEnables(b.phy2, EnableDevice());
    PhyEnables(b.phy1, WritePhy(b.phy2) + EnableDevice());
    MacEnables(b.fullDuplex, WritePhy(b.phy1) + (WritePhy(b.phy2) + EnableDevice()));
    BuffersEnable(b.polls, InitMac(b.fullDuplex) + (WritePhy(b.phy1) + (WritePhy(b.phy2) + EnableDevice())));
  }

  /** Reception is enabled, or the initialisation still holds tx_rx_sem and will enable it. */
  ghost predicate Enabling(s: State) {
    |s.threads| > 0 && (Has(s.econ1, RXEN) || (s.lock == 0 && WillEnable(Rest(s.threads[0]))))
  }

  lemma RxenSimilar(v: U8, w: U8)
    requires Has(w, RXEN) && Similar(v, w)
    ensures Has(v, RXEN)
  {
    BitCleared(v, TXRTS, RXEN);
    BitCleared(w, TXRTS, RXEN);
  }

  lemma RxenSelected(v: U8, addr: U16)
    requires Has(v, RXEN) && Bank(addr) < 4
    ensures Has(Selected(v, addr), RXEN)
  {
    SelectedParts(v, Bank(addr), addr);
  }

  /** No thread's move clears the bit. */
  lemma MoveKeepsRxen(t: Thread, i: nat, lock: int, spi: int, econ1: U8)
    requires ThreadOk(t, lock == i, spi == i, econ1) && Has(econ1, RXEN)
    ensures Has(MoveThread(t, i, lock, spi, econ1).econ1, RXEN)
  {
    if t.todo != [] {
      var op := t.todo[0];
      if t.stage.Entered? && op.SetBit? { BitSet(econ1, op.bit, RXEN); }
      if t.stage.Entered? && op.ClearBit? { BitCleared(econ1, op.bit, RXEN); }
      if t.stage.Latched? {
        RxenSimilar(t.stage.v, econ1);
        RxenSelected(t.stage.v, op.addr);
      }
    }
  }

  /** Until it is set, the initialisation goes on towards setting it. */
  lemma MoveEnables(t: Thread, lock: int, spi: int, econ1: U8)
    requires ThreadOk(t, lock == 0, spi == 0, econ1) && lock == 0 && WillEnable(Rest(t))
    ensures var m := MoveThread(t, 0, lock, spi, econ1); Has(m.econ1, RXEN) || (m.lock == 0 && WillEnable(Rest(m.t)))
  {
    if t.todo != [] && t.stage.Entered? && t.todo[0] == SetBit(ECON1, RXEN) {
      BitSet(econ1, RXEN, RXEN);
    }
  }

  lemma EnablingKept(s: State, a: Action)
    requires Inv(s) && Enabling(s)
    ensures Enabling(Next(s, a))
  {
    match a
    case Move(i) =>
      if i < |s.threads| {
        assert ThreadOk(s.threads[i], s.lock == i, s.spi == i, s.econ1);
        MoverHarmless(s.threads[i], i, s.lock, s.spi, s.econ1);
        if Has(s.econ1, RXEN) {
          MoveKeepsRxen(s.threads[i], i, s.lock, s.spi, s.econ1);
        } else if i == 0 {
          MoveEnables(s.threads[0], s.lock, s.spi, s.econ1);
        }
      }
    case Start(_, _) =>
    case Finish => if Has(s.econ1, RXEN) { BitCleared(s.econ1, TXRTS, RXEN); }
  }

  lemma {:induction false} RunEnabling(b: Boot, actions: seq<Action>)
    ensures Enabling(Run(Booting(b), actions))
  {
    if actions == [] {
      InitEnables(b);
    } else {
      RunKeeps(b, actions[..|actions| - 1]);
      RunEnabling(b, actions[..|actions| - 1]);
      EnablingKept(Run(Booting(b), actions[..|actions| - 1]), actions[|actions| - 1]);
    }
  }

  /** No update of ECON1 is lost that matters: from the moment the initialisation gives
      tx_rx_sem, reception is enabled in every reachable state. */
  lemma ReceptionStaysEnabled(b: Boot, actions: seq<Action>)
    ensures var s := Run(Booting(b), actions); s.lock != 0 ==> Has(s.econ1, RXEN)
  {
    RunEnabling(b, actions);
  }

  // ---------------------------------------------------------------- the transmit logic is reset

  /** Where a thread is with the transmit logic: without tx_rx_sem; holding it, with the reset
      bit not touched, set, or set and cleared again. */
  datatype Phase = Outside | Untouched | InReset | WasReset

  function PhaseAfter(op: Op, p: Phase): Phase {
    match op
    case Lock => Untouched
    case Unlock => Outside
    case SetBit(addr, bit) => if addr == ECON1 && bit == TXRST then InReset else p
    case ClearBit(addr, bit) => if addr == ECON1 && bit == TXRST then WasReset else p
    case _ => p
  }

  /** A transmission is requested only after a reset under the same tx_rx_sem, which is not
      given back during the reset. */
  predicate InOrder(op: Op, p: Phase) {
    match op
    case Lock => p == Outside
    case Unlock => p == Untouched || p == WasReset
    case SetBank(_) => p != Outside
    case SetBit(addr, bit) =>
      addr == ECON1 ==> (bit == TXRST ==> p == Untouched) && (bit == TXRTS ==> p == WasReset)
    case ClearBit(addr, bit) => addr == ECON1 ==> bit == TXRST && p == InReset
    case _ => true
  }

  predicate Resets(ops: seq<Op>, p: Phase) {
    ops == [] || (InOrder(ops[0], p) && Resets(ops[1..], PhaseAfter(ops[0], p)))
  }

  /** An operation that may stand anywhere under tx_rx_sem. */
  predicate Neutral(op: Op) {
    match op
    case Lock => false
    case Unlock => false
    case SetBit(addr, bit) => addr == ECON1 ==> bit == RXEN
    case ClearBit(addr, _) => addr != ECON1
    case _ => true
  }

  lemma {:induction false} NeutralFirst(a: seq<Op>, b: seq<Op>, p: Phase)
    requires p != Outside && forall i :: 0 <= i < |a| ==> Neutral(a[i])
    ensures Resets(a + b, p) == Resets(b, p)
    decreases |a|
  {
    if a == [] {
      assert a + b == b;
    } else {
      NeutralFirst(a[1..], b, p);
      assert (a + b)[0] == a[0] && (a + b)[1..] == a[1..] + b;
    }
  }

  lemma {:induction false} AccessesNeutral(addrs: seq<U16>)
    ensures forall i :: 0 <= i < |Accesses(addrs)| ==> Neutral(Accesses(addrs)[i])
  {
    if addrs != [] { AccessesNeutral(addrs[1..]); }
  }

  lemma {:induction false} PollNeutral(addr: U16, times: nat)
    ensures forall i :: 0 <= i < |Poll(addr, times)| ==> Neutral(Poll(addr, times)[i])
  {
    if times > 0 { PollNeutral(addr, times - 1); }
  }

  lemma {:induction false} TransfersNeutral(times: nat)
    ensures forall i :: 0 <= i < |Transfers(times)| ==> Neutral(Transfers(times)[i])
  {
    if times > 0 { TransfersNeutral(times - 1); }
  }

  lemma SectionNeutral(bank: U16, addrs: seq<U16>)
    ensures forall i :: 0 <= i < |Section(bank, addrs)| ==> Neutral(Section(bank, addrs)[i])
  {
    AccessesNeutral(addrs);
  }

  lemma PhyNeutral(polls: nat)
    ensures forall i :: 0 <= i < |WritePhy(polls)| ==> Neutral(WritePhy(polls)[i])
  {
    SectionNeutral(MIREGADR, [MIREGADR, MIWRL, MIWRH]);
    SectionNeutral(MISTAT, []);
    PollNeutral(MISTAT, polls);
  }

  lemma MacNeutral(fullDuplex: bool)
    ensures forall i :: 0 <= i < |InitMac(fullDuplex)| ==> Neutral(InitMac(fullDuplex)[i])
  {
    SectionNeutral(MACON1, [MACON1, MACON1, MACON3, MAIPGL]
                           + if fullDuplex then [MAIPGH, MABBIPG] else [MABBIPG, MACON4]);
    SectionNeutral(MAADR0, [MAADR0, MAADR1, MAADR2, MAADR3, MAADR4, MAADR5]);
  }

  lemma BuffersNeutral(polls: nat)
    ensures forall i :: 0 <= i < |InitBuffers(polls)| ==> Neutral(InitBuffers(polls)[i])
  {
    SectionNeutral(ERXSTL, [ERXSTL, ERXSTH, ERXRDPTL, ERXRDPTH, ERXNDL, ERXNDH, ETXSTL, ETXSTH,
                            ETXNDL, ETXNDH, ERDPTL, ERDPTH, EWRPTL, EWRPTH]);
    SectionNeutral(ERXFCON, [ERXFCON]);
    PollNeutral(ESTAT, polls);
  }

  lemma EnableResets()
    ensures Resets(EnableDevice(), Untouched)
  {
    var head := [SetBit(EIE, Elsewhere), SetBit(EIE, Elsewhere), SetBit(ECON1, RXEN)];
    assert [Unlock][1..] == [];
    NeutralFirst(head, [Unlock], Untouched);
    assert EnableDevice() == head + [Unlock];
  }

  lemma InitResets(b: Boot)
    ensures Resets(InitDevice(b.fullDuplex, b.polls, b.phy1, b.phy2), Untouched)
  {
    EnableResets();
    PhyNeutral(b.phy1);
    PhyNeutral(b.phy2);
    MacNeutral(b.fullDuplex);
    BuffersNeutral(b.polls);
    NeutralFirst(WritePhy(b.phy2), EnableDevice(), Untouched);
    NeutralFirst(WritePhy(b.phy1), WritePhy(b.phy2) + EnableDevice(), Untouched);
    NeutralFirst(InitMac(b.fullDuplex), WritePhy(b.phy1) + (WritePhy(b.phy2) + EnableDevice()), Untouched);
    NeutralFirst(InitBuffers(b.polls),
                 InitMac(b.fullDuplex) + (WritePhy(b.phy1) + (WritePhy(b.phy2) + EnableDevice())), Untouched);
  }

  /** A program that goes on with op. */
  lemma ResetsFirst(op: Op, rest: seq<Op>, p: Phase)
    ensures Resets([op] + rest, p) == (InOrder(op, p) && Resets(rest, PhaseAfter(op, p)))
  {
    assert ([op] + rest)[1..] == rest;
  }

  /** The request of a transmission and what follows it. */
  function Request(polls: nat): seq<Op> {
    [SetBit(ECON1, TXRTS)] + (Poll(EIR, polls) + ([Access(ESTAT)] + [Unlock]))
  }

  lemma RequestResets(polls: nat)
    ensures Resets(Request(polls), WasReset)
  {
    var last := [Access(ESTAT)] + [Unlock];
    ResetsFirst(Access(ESTAT), [Unlock], WasReset);
    assert [Unlock][1..] == [];
    PollNeutral(EIR, polls);
    NeutralFirst(Poll(EIR, polls), last, WasReset);
    ResetsFirst(SetBit(ECON1, TXRTS), Poll(EIR, polls) + last, WasReset);
  }

  lemma LoadResets(frags: nat, request: seq<Op>)
    requires Resets(request, WasReset)
    ensures Resets(Section(ETXSTL, [EWRPTL, EWRPTH, ETXSTL, ETXSTH])
                   + (Transfers(1 + frags) + (Accesses([ETXNDL, ETXNDH]) + request)), WasReset)
  {
    AccessesNeutral([ETXNDL, ETXNDH]);
    TransfersNeutral(1 + frags);
    SectionNeutral(ETXSTL, [EWRPTL, EWRPTH, ETXSTL, ETXSTH]);
    NeutralFirst(Accesses([ETXNDL, ETXNDH]), request, WasReset);
    NeutralFirst(Transfers(1 + frags), Accesses([ETXNDL, ETXNDH]) + request, WasReset);
    NeutralFirst(Section(ETXSTL, [EWRPTL, EWRPTH, ETXSTL, ETXSTH]),
                 Transfers(1 + frags) + (Accesses([ETXNDL, ETXNDH]) + request), WasReset);
  }

  lemma ThreeFirst(a: Op, b: Op, c: Op, rest: seq<Op>)
    ensures [a, b, c] + rest == [a] + ([b] + ([c] + rest))
  {
  }

  lemma TxResets(frags: nat, polls: nat)
    ensures Resets(Tx(frags, polls), Outside)
  {
    RequestResets(polls);
    LoadResets(frags, Request(polls));
    var body := Section(ETXSTL, [EWRPTL, EWRPTH, ETXSTL, ETXSTH])
                + (Transfers(1 + frags) + (Accesses([ETXNDL, ETXNDH]) + Request(polls)));
    ResetsFirst(ClearBit(ECON1, TXRST), body, InReset);
    ResetsFirst(SetBit(ECON1, TXRST), [ClearBit(ECON1, TXRST)] + body, Untouched);
    ResetsFirst(Lock, [SetBit(ECON1, TXRST)] + ([ClearBit(ECON1, TXRST)] + body), Outside);
    ThreeFirst(Lock, SetBit(ECON1, TXRST), ClearBit(ECON1, TXRST), body);
  }

  lemma {:induction false} PacketsNeutral(packets: seq<nat>)
    ensures forall i :: 0 <= i < |RxPackets(packets)| ==> Neutral(RxPackets(packets)[i])
  {
    if packets != [] {
      TransfersNeutral(packets[0]);
      SectionNeutral(ERXRDPTL, [ERXRDPTL, ERXRDPTH]);
      SectionNeutral(EPKTCNT, [EPKTCNT]);
      PacketsNeutral(packets[1..]);
    }
  }

  lemma RoundResets(pending: bool, packets: seq<nat>)
    ensures Resets(ReceiveRound(pending, packets), Outside)
  {
    if pending {
      var tail := [Unlock, ClearBit(EIR, Elsewhere)];
      ResetsFirst(ClearBit(EIR, Elsewhere), [], Outside);
      assert [ClearBit(EIR, Elsewhere)] + [] == tail[1..];
      PacketsNeutral(packets);
      NeutralFirst(RxPackets(packets), tail, Untouched);
      ResetsFirst(Lock, RxPackets(packets) + tail, Outside);
      ResetsFirst(Access(EIR), [Lock] + (RxPackets(packets) + tail), Outside);
    } else {
      ResetsFirst(Access(EIR), [], Outside);
      assert [Access(EIR)] + [] == ReceiveRound(pending, packets);
    }
  }

  lemma ProgramResets(call: Call)
    ensures Resets(Program(call), Outside)
  {
    match call
    case Send(frags, polls) => TxResets(frags, polls);
    case Round(pending, packets) => RoundResets(pending, packets);
  }

  /** ECON1 shows the phase of the thread that holds tx_rx_sem. */
  predicate Matches(lock: int, p: Phase, econ1: U8) {
    && (lock == NOBODY <==> p == Outside)
    && (Has(econ1, TXRST) <==> p == InReset)
  }

  ghost predicate ResetInv(s: State, p: Phase) {
    && Matches(s.lock, p, s.econ1)
    && forall i :: 0 <= i < |s.threads| ==> Resets(Rest(s.threads[i]), if s.lock == i then p else Outside)
  }

  lemma SelectedTxrst(v: U8, econ1: U8, addr: U16)
    requires Similar(v, econ1) && Bank(addr) < 4
    ensures Has(Selected(v, addr), TXRST) <==> Has(econ1, TXRST)
  {
    SelectedParts(v, Bank(addr), addr);
    TxrstUpper(v, Selected(v, addr));
    BitCleared(v, TXRTS, TXRST);
    BitCleared(econ1, TXRTS, TXRST);
  }

  lemma TxrstUpper(v: U8, w: U8)
    requires v / 4 == w / 4
    ensures Has(v, TXRST) <==> Has(w, TXRST)
  {
    assert v / 0x80 == v / 4 / 0x20 && w / 0x80 == w / 4 / 0x20;
  }

  /** The thread that moves, and the phase of tx_rx_sem's holder afterwards. */
  lemma MoveResets(t: Thread, i: nat, lock: int, spi: int, econ1: U8, p: Phase) returns (r: Phase)
    requires ThreadOk(t, lock == i, spi == i, econ1) && Matches(lock, p, econ1)
    requires Resets(Rest(t), if lock == i then p else Outside)
    ensures var m := MoveThread(t, i, lock, spi, econ1);
      && Matches(m.lock, r, m.econ1)
      && Resets(Rest(m.t), if m.lock == i then r else Outside)
      && (m.lock == lock && lock != i ==> r == p)
  {
    r := p;
    if t.todo != [] {
      var op := t.todo[0];
      if op.Lock? {
        if lock == NOBODY { r := Untouched; }
      } else if op.Unlock? {
        r := Outside;
      } else if t.stage.Entered? && !op.SetBank? {
        r := if lock == i then PhaseAfter(op, p) else p;
        if op.SetBit? { BitSet(econ1, op.bit, TXRST); }
        if op.ClearBit? { BitCleared(econ1, op.bit, TXRST); }
      } else if t.stage.Latched? {
        SelectedTxrst(t.stage.v, econ1, op.addr);
      }
    }
  }

  lemma NextResets(s: State, p: Phase, a: Action) returns (r: Phase)
    requires Inv(s) && ResetInv(s, p)
    ensures ResetInv(Next(s, a), r)
  {
    r := p;
    match a
    case Move(i) =>
      if i < |s.threads| {
        assert ThreadOk(s.threads[i], s.lock == i, s.spi == i, s.econ1);
        MoverHarmless(s.threads[i], i, s.lock, s.spi, s.econ1);
        r := MoveResets(s.threads[i], i, s.lock, s.spi, s.econ1, p);
      }
    case Start(i, call) =>
      if i < |s.threads| {
        assert ThreadOk(s.threads[i], s.lock == i, s.spi == i, s.econ1);
        ProgramResets(call);
      }
    case Finish => BitCleared(s.econ1, TXRTS, TXRST);
  }

  lemma {:induction false} RunResets(b: Boot, actions: seq<Action>) returns (p: Phase)
    ensures ResetInv(Run(Booting(b), actions), p)
  {
    if actions == [] {
      p := Untouched;
      InitResets(b);
    } else {
      var s := Run(Booting(b), actions[..|actions| - 1]);
      RunKeeps(b, actions[..|actions| - 1]);
      p := RunResets(b, actions[..|actions| - 1]);
      p := NextResets(s, p, actions[|actions| - 1]);
    }
  }

  /** In every interleaving the transmit logic is out of reset whenever nobody holds
      tx_rx_sem and whenever a thread requests a transmission. The request, in ECON1, is then
      pending; a reset that is set is set, and one that is cleared is cleared; and no other
      register operation changes any of the three bits. */
  lemma TransmitsOutOfReset(b: Boot, actions: seq<Action>, i: nat, bit: Bit)
    requires i < |Run(Booting(b), actions).threads| && bit != Elsewhere
    ensures var s := Run(Booting(b), actions);
      var t, after := s.threads[i], Next(s, Move(i)).econ1;
      && (s.lock == NOBODY ==> !Has(s.econ1, TXRST))
      && (t.stage.Entered? ==>
            && t.todo != []
            && (t.todo[0] == SetBit(ECON1, TXRTS) ==> !Has(s.econ1, TXRST) && s.lock == i)
            && (t.todo[0] == SetBit(ECON1, TXRST) ==> !Has(s.econ1, TXRST) && s.lock == i)
            && (t.todo[0] == ClearBit(ECON1, TXRST) ==> Has(s.econ1, TXRST) && s.lock == i)
            && (Has(after, bit) <==>
                  t.todo[0] == SetBit(ECON1, bit) || (Has(s.econ1, bit) && t.todo[0] != ClearBit(ECON1, bit))))
  {
    var s := Run(Booting(b), actions);
    var p := RunResets(b, actions);
    RunKeeps(b, actions);
    var t := s.threads[i];
    assert ThreadOk(t, s.lock == i, s.spi == i, s.econ1);
    assert Resets(Rest(t), if s.lock == i then p else Outside);
    if t.stage.Entered? {
      var op := t.todo[0];
      if op.SetBit? { BitSet(s.econ1, op.bit, bit); }
      if op.ClearBit? { BitCleared(s.econ1, op.bit, bit); }
    }
  }

  // ---------------------------------------------------------------- no deadlock

  /** A thread that has spi_sem, or that finds the semaphores it needs free, can move. */
  lemma CanMove(t: Thread, i: nat, lock: int, spi: int, econ1: U8)
    requires ThreadOk(t, lock == i, spi == i, econ1) && t.todo != []
    requires spi == i || (spi == NOBODY && (lock == i || lock == NOBODY))
    ensures MoveThread(t, i, lock, spi, econ1) != Moved(t, lock, spi, econ1)
  {
  }

  /** In every reachable state in which some call is under way, some thread can move. */
  lemma NoDeadlock(b: Boot, actions: seq<Action>) returns (j: nat)
    requires exists i :: 0 <= i < |Run(Booting(b), actions).threads| && Run(Booting(b), actions).threads[i].todo != []
    ensures j < |Run(Booting(b), actions).threads|
    ensures Next(Run(Booting(b), actions), Move(j)) != Run(Booting(b), actions)
  {
    var s := Run(Booting(b), actions);
    RunKeeps(b, actions);
    var i :| 0 <= i < |s.threads| && s.threads[i].todo != [];
    j := if s.spi != NOBODY then s.spi else if s.lock != NOBODY then s.lock else i;
    var t := s.threads[j];
    assert ThreadOk(t, s.lock == j, s.spi == j, s.econ1);
    assert t.todo != [];
    CanMove(t, j, s.lock, s.spi, s.econ1);
    var m := MoveThread(t, j, s.lock, s.spi, s.econ1);
    assert s.threads[j := m.t][j] == m.t;
  }

  // ---------------------------------------------------------------- a revived request

  ghost predicate Reached(s0: State, s: State) { exists actions :: Run(s0, actions) == s }

  lemma ReachedNext(s0: State, s: State, a: Action)
    requires Reached(s0, s)
    ensures Reached(s0, Next(s, a))
  {
    var actions :| Run(s0, actions) == s;
    assert (actions + [a])[..|actions|] == actions;
    assert Run(s0, actions + [a]) == Next(s, a);
  }

  lemma {:induction false} RunInv(s0: State, actions: seq<Action>)
    requires Inv(s0)
    ensures Inv(Run(s0, actions))
  {
    if actions != [] {
      RunInv(s0, actions[..|actions| - 1]);
      NextKeeps(Run(s0, actions[..|actions| - 1]), actions[|actions| - 1]);
    }
  }

  lemma ReachedInv(s0: State, s: State)
    requires Inv(s0) && Reached(s0, s)
    ensures Inv(s)
  {
    var actions :| Run(s0, actions) == s;
    RunInv(s0, actions);
  }

  /** The only thread, between two operations. */
  ghost predicate Alone(s0: State, s: State, todo: seq<Op>) {
    && Inv(s0) && Reached(s0, s) && |s.threads| == 1 && s.spi == NOBODY
    && s.threads[0].todo == todo && s.threads[0].stage == Idle
  }

  /** The effect of an operation on ECON1. */
  function Through(op: Op, v: U8): U8 { if op.SetBank? then Selected(v, op.addr) else Effect(op, v) }

  lemma OpAlone(s0: State, s: State, todo: seq<Op>) returns (t: State)
    requires Alone(s0, s, todo) && todo != []
    ensures Alone(s0, t, todo[1..]) && t.econ1 == Through(todo[0], s.econ1)
  {
    ReachedInv(s0, s);
    var op := todo[0];
    ReachedNext(s0, s, Move(0));
    t := Next(s, Move(0));
    if !op.Lock? && !op.Unlock? {
      t := OpDone(s0, t);
    }
  }

  /** From holding spi_sem to giving it. */
  lemma OpDone(s0: State, s: State) returns (t: State)
    requires Inv(s0) && Reached(s0, s) && |s.threads| == 1 && s.threads[0].stage == Entered
    ensures s.threads[0].todo != [] && Alone(s0, t, s.threads[0].todo[1..])
    ensures t.econ1 == Through(s.threads[0].todo[0], s.econ1)
  {
    ReachedInv(s0, s);
    ReachedNext(s0, s, Move(0));
    t := Next(s, Move(0));
    if s.threads[0].todo[0].SetBank? {
      ReachedNext(s0, t, Move(0));
      t := Next(t, Move(0));
    }
    ReachedNext(s0, t, Move(0));
    t := Next(t, Move(0));
  }

  /** The first k operations; if none of them clears the transmit request it stays. */
  lemma {:induction false} OpsAlone(s0: State, s: State, todo: seq<Op>, k: nat) returns (t: State)
    requires Alone(s0, s, todo) && k <= |todo|
    ensures Alone(s0, t, todo[k..])
    ensures Has(s.econ1, TXRTS) && NoClear(todo[..k]) ==> Has(t.econ1, TXRTS)
    decreases k
  {
    if k == 0 {
      t := s;
    } else {
      t := OpAlone(s0, s, todo);
      ReachedInv(s0, s);
      if Has(s.econ1, TXRTS) && NoClear(todo[..k]) {
        assert todo[0] == todo[..k][0];
        ThroughKeeps(s.econ1, todo[0]);
        assert todo[1..][..k - 1] == todo[..k][1..];
      }
      t := OpsAlone(s0, t, todo[1..], k - 1);
      assert todo[1..][k - 1..] == todo[k..];
    }
  }

  lemma ThroughKeeps(v: U8, op: Op)
    requires Has(v, TXRTS) && op != ClearBit(ECON1, TXRTS) && (op.SetBank? ==> Bank(op.addr) < 4)
    ensures Has(Through(op, v), TXRTS)
  {
    if op.SetBank? {
      SelectedParts(v, Bank(op.addr), op.addr);
      TxrtsUpper(v, Selected(v, op.addr));
    } else if op.SetBit? {
      BitSet(v, op.bit, TXRTS);
    } else if op.ClearBit? && op.bit != TXRTS {
      BitCleared(v, op.bit, TXRTS);
    }
  }

  /** The part of a transmission before the request, and the part after it. */
  function BeforeRequest(frags: nat): seq<Op> {
    [Lock, SetBit(ECON1, TXRST), ClearBit(ECON1, TXRST)]
    + (Section(ETXSTL, [EWRPTL, EWRPTH, ETXSTL, ETXSTH]) + (Transfers(1 + frags) + Accesses([ETXNDL, ETXNDH])))
  }

  function AfterRequest(polls: nat): seq<Op> { Poll(EIR, polls) + ([Access(ESTAT)] + [Unlock]) }

  lemma TxParts(frags: nat, polls: nat)
    ensures Tx(frags, polls) == BeforeRequest(frags) + ([SetBit(ECON1, TXRTS)] + AfterRequest(polls))
  {
  }

  ghost predicate NoClear(ops: seq<Op>) { forall i :: 0 <= i < |ops| ==> ops[i] != ClearBit(ECON1, TXRTS) }

  lemma {:induction false} AccessesNoClear(addrs: seq<U16>)
    ensures NoClear(Accesses(addrs))
  {
    if addrs != [] { AccessesNoClear(addrs[1..]); }
  }

  lemma {:induction false} TransfersNoClear(times: nat)
    ensures NoClear(Transfers(times))
  {
    if times > 0 { TransfersNoClear(times - 1); }
  }

  lemma {:induction false} PollNoClear(addr: U16, times: nat)
    ensures NoClear(Poll(addr, times))
  {
    if times > 0 { PollNoClear(addr, times - 1); }
  }

  lemma TxNoClear(frags: nat, polls: nat)
    ensures NoClear(BeforeRequest(frags)) && NoClear(AfterRequest(polls))
  {
    AccessesNoClear([EWRPTL, EWRPTH, ETXSTL, ETXSTH]);
    AccessesNoClear([ETXNDL, ETXNDH]);
    TransfersNoClear(1 + frags);
    PollNoClear(EIR, polls);
  }

  /** A transmission by the only thread leaves the request pending if the device is slow. */
  lemma SentAlone(s0: State, s: State) returns (t: State)
    requires Alone(s0, s, [])
    ensures Alone(s0, t, []) && Has(t.econ1, TXRTS)
  {
    ReachedInv(s0, s);
    ReachedNext(s0, s, Start(0, Send(0, 1)));
    t := Next(s, Start(0, Send(0, 1)));
    TxParts(0, 1);
    TxNoClear(0, 1);
    var pre, post := BeforeRequest(0), AfterRequest(1);
    var todo := Tx(0, 1);
    t := OpsAlone(s0, t, todo, |pre|);
    assert todo[|pre|..] == [SetBit(ECON1, TXRTS)] + post;
    t := OpAlone(s0, t, [SetBit(ECON1, TXRTS)] + post);
    TxrtsRequested(t);
    assert ([SetBit(ECON1, TXRTS)] + post)[1..] == post;
    assert post[..|post|] == post && post[|post|..] == [];
    t := OpsAlone(s0, t, post, |post|);
  }

  lemma TxrtsRequested(t: State)
    requires exists v: U8 :: t.econ1 == WithBit(v, TXRTS)
    ensures Has(t.econ1, TXRTS)
  {
    var v: U8 :| t.econ1 == WithBit(v, TXRTS);
    BitSet(v, TXRTS, TXRTS);
  }

  /** A thread reads ECON1 to select a bank, and the device clears the request. */
  lemma Latch(s0: State, s: State, todo: seq<Op>) returns (t: State)
    requires Alone(s0, s, todo) && todo != [] && todo[0].SetBank? && Has(s.econ1, TXRTS)
    ensures Reached(s0, t) && |t.threads| == 1 && t.threads[0].stage.Latched? && t.threads[0].todo == todo
    ensures Has(t.threads[0].stage.v, TXRTS) && !Has(t.econ1, TXRTS)
  {
    ReachedNext(s0, s, Move(0));
    t := Next(s, Move(0));
    ReachedNext(s0, t, Move(0));
    t := Next(t, Move(0));
    ReachedNext(s0, t, Finish);
    BitCleared(t.econ1, TXRTS, TXRTS);
    t := Next(t, Finish);
  }

  /** The first call runs to its end. */
  lemma CallAlone(s0: State, todo: seq<Op>) returns (s: State)
    requires Inv(s0) && |s0.threads| == 1 && s0.spi == NOBODY && s0.threads[0].stage == Idle
    requires s0.threads[0].todo == todo
    ensures Alone(s0, s, [])
  {
    assert Run(s0, []) == s0;
    s := OpsAlone(s0, s0, todo, |todo|);
    assert todo[|todo|..] == [];
  }

  /** The next transmission, up to the selection of its bank. */
  lemma SelectAlone(s0: State, s: State) returns (t: State, todo: seq<Op>)
    requires Alone(s0, s, []) && Has(s.econ1, TXRTS)
    ensures Alone(s0, t, todo) && todo != [] && todo[0] == SetBank(ETXSTL) && Has(t.econ1, TXRTS)
  {
    ReachedInv(s0, s);
    ReachedNext(s0, s, Start(0, Send(0, 1)));
    t := Next(s, Start(0, Send(0, 1)));
    TxBegins();
    t := OpsAlone(s0, t, Tx(0, 1), 3);
    todo := Tx(0, 1)[3..];
  }

  lemma TxBegins()
    ensures |Tx(0, 1)| > 3 && NoClear(Tx(0, 1)[..3]) && Tx(0, 1)[3] == SetBank(ETXSTL)
  {
    var head := [Lock, SetBit(ECON1, TXRST), ClearBit(ECON1, TXRST)];
    assert Tx(0, 1)[..3] == head;
  }

  lemma RevivedFrom(s0: State) returns (s: State)
    requires Inv(s0) && |s0.threads| == 1 && s0.spi == NOBODY && s0.threads[0].stage == Idle
    ensures Reached(s0, s) && |s.threads| == 1 && s.threads[0].stage.Latched?
    ensures !Has(s.econ1, TXRTS) && Has(Next(s, Move(0)).econ1, TXRTS)
  {
    s := CallAlone(s0, s0.threads[0].todo);
    s := SentAlone(s0, s);
    var todo;
    s, todo := SelectAlone(s0, s);
    s := Latch(s0, s, todo);
    var v := s.threads[0].stage.v;
    SelectedParts(v, 0, ETXSTL);
    TxrtsUpper(v, Selected(v, ETXSTL));
  }

  /** From every boot, a run in which a thread has read ECON1 with a transmit request pending,
      the device has cleared the request since, and writing the bank back sets it again. */
  lemma RequestRevived(b: Boot) returns (s: State)
    requires b.threads == 0
    ensures Reached(Booting(b), s) && |s.threads| == 1 && s.threads[0].stage.Latched?
    ensures !Has(s.econ1, TXRTS) && Has(Next(s, Move(0)).econ1, TXRTS)
  {
    BootOk(b);
    s := RevivedFrom(Booting(b));
  }
}
