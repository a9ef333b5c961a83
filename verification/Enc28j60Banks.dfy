/** Register banks of the ENC28J60 (drivers/ethernet/eth_enc28j60.c): any number of threads
    transmit while one receives, all through one bank-select field in ECON1. A thread's call
    is a sequence of register operations; the steps of different threads interleave at every
    SPI transfer, restrained only by the two semaphores. */
module Enc28j60Banks {
  import opened CTypes
  import Bits

  // ---------------------------------------------------------------- registers

  const EIE := 0x1B
  const EIR := 0x1C
  const ESTAT := 0x1D
  const ECON2 := 0x1E
  const ECON1 := 0x1F

  const ERDPTL := 0x0000
  const ERDPTH := 0x0001
  const EWRPTL := 0x0002
  const EWRPTH := 0x0003
  const ETXSTL := 0x0004
  const ETXSTH := 0x0005
  const ETXNDL := 0x0006
  const ETXNDH := 0x0007
  const ERXSTL := 0x0008
  const ERXSTH := 0x0009
  const ERXNDL := 0x000A
  const ERXNDH := 0x000B
  const ERXRDPTL := 0x000C
  const ERXRDPTH := 0x000D
  const ERXFCON := 0x0118
  const EPKTCNT := 0x0119
  const MACON1 := 0x1200
  const MACON3 := 0x1202
  const MACON4 := 0x1203
  const MABBIPG := 0x1204
  const MAIPGL := 0x1206
  const MAIPGH := 0x1207
  const MIREGADR := 0x2214
  const MIWRL := 0x2216
  const MIWRH := 0x2217
  const MAADR1 := 0x1300
  const MAADR0 := 0x1301
  const MAADR3 := 0x1302
  const MAADR2 := 0x1303
  const MAADR5 := 0x1304
  const MAADR4 := 0x1305
  const MISTAT := 0x230A

  /** The five registers that are mapped into every bank. */
  predicate Common(addr: U16) { 0x1B <= addr % 0x100 <= 0x1F }

  /** They are EIE, EIR, ESTAT, ECON2 and ECON1; no other register of the driver is one. */
  lemma CommonRegisters(addr: U16)
    requires addr in {0x1B, 0x1C, 0x1D, 0x1E, 0x1F} || addr % 256 <= 0x1A
    ensures Common(addr) <==> addr in {0x1B, 0x1C, 0x1D, 0x1E, 0x1F}
  {
  }

  /** The bank encoded in an address. */
  function Bank(addr: U16): nat { addr / 0x100 % 0x10 }

  datatype Bit = RXEN | TXRTS | TXRST | Elsewhere

  /** A bit of ECON1. */
  predicate Has(v: U8, b: Bit) {
    match b
    case RXEN => v / 0x04 % 2 == 1
    case TXRTS => v / 0x08 % 2 == 1
    case TXRST => v / 0x80 % 2 == 1
    case Elsewhere => false
  }

  function Weight(b: Bit): nat {
    match b case RXEN => 0x04 case TXRTS => 0x08 case TXRST => 0x80 case Elsewhere => 0
  }

  function WithBit(v: U8, b: Bit): U8 { if b.Elsewhere? || Has(v, b) then v else v + Weight(b) }

  function WithoutBit(v: U8, b: Bit): U8 { if Has(v, b) then v - Weight(b) else v }

  /** A byte from its bits: the bank, RXEN, TXRTS, three others, TXRST. */
  lemma FromBits(v: U8, bank: nat, rxen: nat, txrts: nat, others: nat, txrst: nat)
    requires bank < 4 && rxen < 2 && txrts < 2 && others < 8 && txrst < 2
    requires v == bank + 4 * rxen + 8 * txrts + 16 * others + 128 * txrst
    ensures v / 0x04 % 2 == rxen && v / 0x08 % 2 == txrts && v / 0x80 % 2 == txrst
  {
    assert v / 0x04 == rxen + 2 * txrts + 4 * others + 32 * txrst;
    assert v / 0x08 == txrts + 2 * others + 16 * txrst;
    assert v / 0x80 == txrst;
  }

  lemma ToBits(v: U8) returns (bank: nat, rxen: nat, txrts: nat, others: nat, txrst: nat)
    ensures bank < 4 && rxen < 2 && txrts < 2 && others < 8 && txrst < 2
    ensures v == bank + 4 * rxen + 8 * txrts + 16 * others + 128 * txrst
  {
    bank, rxen, txrts, others, txrst := v % 4, v / 4 % 2, v / 8 % 2, v / 16 % 8, v / 128;
    assert v / 8 == v / 4 / 2 && v / 16 == v / 8 / 2 && v / 128 == v / 16 / 8;
  }

  /** Setting and clearing a bit of ECON1 does that and leaves the other two as they are. */
  lemma BitSet(v: U8, b: Bit, c: Bit)
    requires c != Elsewhere
    ensures Has(WithBit(v, b), c) <==> Has(v, c) || b == c
  {
    var bank, rxen, txrts, others, txrst := ToBits(v);
    FromBits(v, bank, rxen, txrts, others, txrst);
    FromBits(WithBit(v, b), bank, if b == RXEN then 1 else rxen, if b == TXRTS then 1 else txrts, others,
             if b == TXRST then 1 else txrst);
  }

  lemma BitCleared(v: U8, b: Bit, c: Bit)
    requires c != Elsewhere
    ensures Has(WithoutBit(v, b), c) <==> Has(v, c) && b != c
  {
    var bank, rxen, txrts, others, txrst := ToBits(v);
    FromBits(v, bank, rxen, txrts, others, txrst);
    FromBits(WithoutBit(v, b), bank, if b == RXEN then 0 else rxen, if b == TXRTS then 0 else txrts, others,
             if b == TXRST then 0 else txrst);
  }

  /** The byte set_bank writes back. */
  function Selected(v: U8, addr: U16): U8 { v / 4 * 4 + Bank(addr) % 4 }

  /** set_bank masks ECON1 with 0xFC and sets the low nibble of the bank: for the four banks
      of the device this selects the bank and keeps the upper six bits. */
  lemma SetBankKeeps(v: U8, addr: U16)
    requires Bank(addr) < 4
    ensures Bits.And(v, 0xFC) + Bank(addr) == Selected(v, addr) && Bits.And(v, 0xFC) == 4 * (v / 4)
    ensures Selected(v, addr) % 4 == Bank(addr) && Selected(v, addr) / 4 == v / 4
  {
    Bits.AndUpperSix(v);
    SelectedParts(v, Bank(addr), addr);
  }

  lemma SelectedParts(v: U8, bank: nat, addr: U16)
    requires bank == Bank(addr) < 4
    ensures Selected(v, addr) == 4 * (v / 4) + bank
    ensures Selected(v, addr) % 4 == bank && Selected(v, addr) / 4 == v / 4
  {
  }

  // ---------------------------------------------------------------- programs

  /** Take or give tx_rx_sem; select a bank; read or write a register; set or clear a bit
      of a common register; move data through the buffer memory. All but the first two run
      under spi_sem. */
  datatype Op =
    | Lock
    | Unlock
    | SetBank(addr: U16)
    | Access(addr: U16)
    | SetBit(addr: U16, bit: Bit)
    | ClearBit(addr: U16, bit: Bit)
    | Transfer

  function Accesses(addrs: seq<U16>): seq<Op> {
    if addrs == [] then [] else [Access(addrs[0])] + Accesses(addrs[1..])
  }

  /** Select a bank, then use its registers. */
  function Section(bank: U16, addrs: seq<U16>): seq<Op> { [SetBank(bank)] + Accesses(addrs) }

  /** A register polled until it reads as wanted. */
  function Poll(addr: U16, times: nat): seq<Op> {
    if times == 0 then [] else [Access(addr)] + Poll(addr, times - 1)
  }

  function Transfers(times: nat): seq<Op> {
    if times == 0 then [] else [Transfer] + Transfers(times - 1)
  }

  /** eth_enc28j60_write_phy. */
  function WritePhy(polls: nat): seq<Op> {
    Section(MIREGADR, [MIREGADR, MIWRL, MIWRH]) + (Section(MISTAT, []) + Poll(MISTAT, polls))
  }

  /** eth_enc28j60_init_buffers. */
  function InitBuffers(polls: nat): seq<Op> {
    Section(ERXSTL, [ERXSTL, ERXSTH, ERXRDPTL, ERXRDPTH, ERXNDL, ERXNDH, ETXSTL, ETXSTH,
                     ETXNDL, ETXNDH, ERDPTL, ERDPTH, EWRPTL, EWRPTH])
    + (Section(ERXFCON, [ERXFCON]) + Poll(ESTAT, polls))
  }

  /** eth_enc28j60_init_mac. */
  function InitMac(fullDuplex: bool): seq<Op> {
    Section(MACON1, [MACON1, MACON1, MACON3, MAIPGL] + if fullDuplex then [MAIPGH, MABBIPG] else [MABBIPG, MACON4])
    + Section(MAADR0, [MAADR0, MAADR1, MAADR2, MAADR3, MAADR4, MAADR5])
  }

  /** The register traffic of eth_enc28j60_init, which ends by giving tx_rx_sem for the
      first time. */
  function InitDevice(fullDuplex: bool, polls: nat, phy1: nat, phy2: nat): seq<Op> {
    InitBuffers(polls) + (InitMac(fullDuplex) + (WritePhy(phy1) + (WritePhy(phy2) + EnableDevice())))
  }

  function EnableDevice(): seq<Op> {
    [SetBit(EIE, Elsewhere), SetBit(EIE, Elsewhere), SetBit(ECON1, RXEN), Unlock]
  }

  /** What a thread may call once it is idle: eth_enc28j60_tx, or a round of the receive
      thread with the packets it finds, if any. */
  datatype Call = Send(frags: nat, polls: nat) | Round(pending: bool, packets: seq<nat>)

  /** eth_enc28j60_tx. */
  function Tx(frags: nat, polls: nat): seq<Op> {
    [Lock, SetBit(ECON1, TXRST), ClearBit(ECON1, TXRST)]
    + (Section(ETXSTL, [EWRPTL, EWRPTH, ETXSTL, ETXSTH])
       + (Transfers(1 + frags)
          + (Accesses([ETXNDL, ETXNDH])
             + ([SetBit(ECON1, TXRTS)] + (Poll(EIR, polls) + ([Access(ESTAT)] + [Unlock]))))))
  }

  /** A received packet: its transfers, then the read pointer and the packet counter. */
  function RxPacket(transfers: nat): seq<Op> {
    Transfers(transfers)
    + (Section(ERXRDPTL, [ERXRDPTL, ERXRDPTH])
       + ([SetBit(ECON2, Elsewhere)] + Section(EPKTCNT, [EPKTCNT])))
  }

  function RxPackets(packets: seq<nat>): seq<Op> {
    if packets == [] then [] else RxPacket(packets[0]) + RxPackets(packets[1..])
  }

  /** A round of enc28j60_thread_main: read the interrupt flags; if a packet is pending run
      eth_enc28j60_rx and clear the flags. */
  function ReceiveRound(pending: bool, packets: seq<nat>): seq<Op> {
    [Access(EIR)]
    + if pending then [Lock] + (RxPackets(packets) + [Unlock, ClearBit(EIR, Elsewhere)]) else []
  }

  function Program(call: Call): seq<Op> {
    match call
    case Send(frags, polls) => Tx(frags, polls)
    case Round(pending, packets) => ReceiveRound(pending, packets)
  }

  // ---------------------------------------------------------------- what the programs do

  function Count(ops: seq<Op>, op: Op): nat {
    if ops == [] then 0 else (if ops[0] == op then 1 else 0) + Count(ops[1..], op)
  }

  lemma {:induction false} CountJoin(a: seq<Op>, b: seq<Op>, op: Op)
    ensures Count(a + b, op) == Count(a, op) + Count(b, op)
    decreases |a|
  {
    if a == [] {
      assert a + b == b;
    } else {
      CountJoin(a[1..], b, op);
      assert (a + b)[1..] == a[1..] + b;
    }
  }

  lemma CountOne(op: Op, other: Op)
    ensures Count([op], other) == if op == other then 1 else 0
  {
    assert [op][1..] == [];
  }

  lemma {:induction false} CountAccesses(addrs: seq<U16>, op: Op)
    ensures Count(Accesses(addrs), op) == if op.Access? then multiset(addrs)[op.addr] else 0
  {
    if addrs != [] {
      CountAccesses(addrs[1..], op);
      CountOne(Access(addrs[0]), op);
      CountJoin([Access(addrs[0])], Accesses(addrs[1..]), op);
      assert addrs == [addrs[0]] + addrs[1..];
    }
  }

  lemma {:induction false} CountPoll(addr: U16, times: nat, op: Op)
    ensures Count(Poll(addr, times), op) == if op == Access(addr) then times else 0
  {
    if times > 0 {
      CountPoll(addr, times - 1, op);
      CountOne(Access(addr), op);
      CountJoin([Access(addr)], Poll(addr, times - 1), op);
    }
  }

  lemma {:induction false} CountTransfers(times: nat, op: Op)
    ensures Count(Transfers(times), op) == if op == Transfer then times else 0
  {
    if times > 0 {
      CountTransfers(times - 1, op);
      CountOne(Transfer, op);
      CountJoin([Transfer], Transfers(times - 1), op);
    }
  }

  lemma CountSection(bank: U16, addrs: seq<U16>, op: Op)
    ensures Count(Section(bank, addrs), op)
         == if op.Access? then multiset(addrs)[op.addr] else if op == SetBank(bank) then 1 else 0
  {
    CountAccesses(addrs, op);
    CountOne(SetBank(bank), op);
    CountJoin([SetBank(bank)], Accesses(addrs), op);
  }

  lemma CountThree(a: Op, b: Op, c: Op, op: Op)
    ensures Count([a, b, c], op)
         == (if a == op then 1 else 0) + (if b == op then 1 else 0) + (if c == op then 1 else 0)
  {
    assert [a, b, c][1..] == [b, c] && [b, c][1..] == [c];
    CountOne(c, op);
  }

  lemma RequestCounts(polls: nat, op: Op)
    ensures Count([SetBit(ECON1, TXRTS)] + (Poll(EIR, polls) + ([Access(ESTAT)] + [Unlock])), op) ==
      if op in {SetBit(0x1F, TXRTS), Access(0x1D), Unlock} then 1 else if op == Access(0x1C) then polls else 0
  {
    var last := [Access(ESTAT)] + [Unlock];
    CountOne(Access(ESTAT), op);
    CountOne(Unlock, op);
    CountJoin([Access(ESTAT)], [Unlock], op);
    CountPoll(EIR, polls, op);
    CountJoin(Poll(EIR, polls), last, op);
    CountOne(SetBit(ECON1, TXRTS), op);
    CountJoin([SetBit(ECON1, TXRTS)], Poll(EIR, polls) + last, op);
  }

  lemma JoinCounts(a: seq<Op>, b: seq<Op>, c: seq<Op>, rest: seq<Op>, op: Op)
    ensures Count(a + (b + (c + rest)), op) == Count(a, op) + Count(b, op) + Count(c, op) + Count(rest, op)
  {
    CountJoin(c, rest, op);
    CountJoin(b, c + rest, op);
    CountJoin(a, b + (c + rest), op);
  }

  lemma StartCounts(op: Op)
    ensures Count(Section(ETXSTL, [EWRPTL, EWRPTH, ETXSTL, ETXSTH]), op)
         == if op in {SetBank(4), Access(2), Access(3), Access(4), Access(5)} then 1 else 0
  {
    CountSection(ETXSTL, [EWRPTL, EWRPTH, ETXSTL, ETXSTH], op);
  }

  lemma EndCounts(op: Op)
    ensures Count(Accesses([ETXNDL, ETXNDH]), op) == if op in {Access(6), Access(7)} then 1 else 0
  {
    CountAccesses([ETXNDL, ETXNDH], op);
  }

  lemma LoadCounts(frags: nat, rest: seq<Op>, op: Op)
    ensures Count(Section(ETXSTL, [EWRPTL, EWRPTH, ETXSTL, ETXSTH])
                  + (Transfers(1 + frags) + (Accesses([ETXNDL, ETXNDH]) + rest)), op)
      == Count(rest, op) +
         if op in {SetBank(4), Access(2), Access(3), Access(4), Access(5), Access(6), Access(7)} then 1
         else if op == Transfer then 1 + frags
         else 0
  {
    StartCounts(op);
    CountTransfers(1 + frags, op);
    EndCounts(op);
    JoinCounts(Section(ETXSTL, [EWRPTL, EWRPTH, ETXSTL, ETXSTH]), Transfers(1 + frags), Accesses([ETXNDL, ETXNDH]),
               rest, op);
  }

  /** A transmission writes the write pointer (2, 3), the start (4, 5) and the end (6, 7) once,
      moves the control byte and each fragment, resets the transmit logic once and makes one
      request. */
  lemma TxCounts(frags: nat, polls: nat, op: Op)
    ensures Count(Tx(frags, polls), op) ==
      if op in {Lock, SetBit(0x1F, TXRST), ClearBit(0x1F, TXRST), SetBit(0x1F, TXRTS), Unlock} then 1
      else if op in {SetBank(4), Access(2), Access(3), Access(4), Access(5), Access(6), Access(7)} then 1
      else if op == Transfer then 1 + frags
      else if op == Access(0x1C) then polls
      else if op == Access(0x1D) then 1
      else 0
  {
    var request := [SetBit(ECON1, TXRTS)] + (Poll(EIR, polls) + ([Access(ESTAT)] + [Unlock]));
    RequestCounts(polls, op);
    LoadCounts(frags, request, op);
    CountThree(Lock, SetBit(ECON1, TXRST), ClearBit(ECON1, TXRST), op);
    CountJoin([Lock, SetBit(ECON1, TXRST), ClearBit(ECON1, TXRST)],
              Section(ETXSTL, [EWRPTL, EWRPTH, ETXSTL, ETXSTH])
              + (Transfers(1 + frags) + (Accesses([ETXNDL, ETXNDH]) + request)), op);
  }

  function Total(ns: seq<nat>): nat { if ns == [] then 0 else ns[0] + Total(ns[1..]) }

  lemma PacketCounts(transfers: nat, op: Op)
    ensures Count(RxPacket(transfers), op) ==
      if op in {SetBank(0x0C), Access(0x0C), Access(0x0D), SetBank(0x119), Access(0x119)} then 1
      else if op == SetBit(0x1E, Elsewhere) then 1
      else if op == Transfer then transfers
      else 0
  {
    var pointer, counter := Section(ERXRDPTL, [ERXRDPTL, ERXRDPTH]), Section(EPKTCNT, [EPKTCNT]);
    CountTransfers(transfers, op);
    CountSection(ERXRDPTL, [ERXRDPTL, ERXRDPTH], op);
    CountSection(EPKTCNT, [EPKTCNT], op);
    CountOne(SetBit(ECON2, Elsewhere), op);
    CountJoin([SetBit(ECON2, Elsewhere)], counter, op);
    CountJoin(pointer, [SetBit(ECON2, Elsewhere)] + counter, op);
    CountJoin(Transfers(transfers), pointer + ([SetBit(ECON2, Elsewhere)] + counter), op);
  }

  /** Receiving writes the read pointer (0x0C, 0x0D), decrements the packet counter (in ECON2,
      0x1E) and reads it (0x119) once for each packet. */
  lemma {:induction false} RxCounts(packets: seq<nat>, op: Op)
    ensures Count(RxPackets(packets), op) ==
      if op in {SetBank(0x0C), Access(0x0C), Access(0x0D), SetBank(0x119), Access(0x119)} then |packets|
      else if op == SetBit(0x1E, Elsewhere) then |packets|
      else if op == Transfer then Total(packets)
      else 0
  {
    if packets != [] {
      RxCounts(packets[1..], op);
      PacketCounts(packets[0], op);
      CountJoin(RxPacket(packets[0]), RxPackets(packets[1..]), op);
    }
  }

  // ---------------------------------------------------------------- the static discipline

  const UNKNOWN := -1

  /** What a thread knows: whether it holds tx_rx_sem, and the bank it selected since. */
  datatype Known = Known(held: bool, bank: int)

  predicate Allowed(op: Op, k: Known) {
    match op
    case Lock => !k.held
    case Unlock => k.held
    case SetBank(addr) => k.held && Bank(addr) < 4
    case Access(addr) => Common(addr) || (k.held && k.bank == Bank(addr))
    case SetBit(addr, bit) => Common(addr) && (addr != ECON1 ==> bit == Elsewhere)
    case ClearBit(addr, bit) => Common(addr) && bit != RXEN && (addr != ECON1 ==> bit == Elsewhere)
    case Transfer => true
  }

  function After(op: Op, k: Known): Known {
    match op
    case Lock => Known(true, UNKNOWN)
    case Unlock => Known(false, UNKNOWN)
    case SetBank(addr) => Known(k.held, Bank(addr))
    case _ => k
  }

  /** Every operation of the rest of a program is allowed where it stands. */
  predicate Disciplined(ops: seq<Op>, k: Known) {
    ops == [] || (Allowed(ops[0], k) && Disciplined(ops[1..], After(ops[0], k)))
  }

  function End(ops: seq<Op>, k: Known): Known
    decreases |ops|
  {
    if ops == [] then k else End(ops[1..], After(ops[0], k))
  }

  /** A whole program: disciplined, and it gives back tx_rx_sem. */
  predicate Proper(ops: seq<Op>, k: Known) { Disciplined(ops, k) && !End(ops, k).held }

  lemma {:induction false} Join(a: seq<Op>, b: seq<Op>, k: Known)
    requires Disciplined(a, k)
    ensures Disciplined(a + b, k) == Disciplined(b, End(a, k)) && End(a + b, k) == End(b, End(a, k))
    decreases |a|
  {
    if a == [] {
      assert a + b == b;
    } else {
      assert (a + b)[0] == a[0] && (a + b)[1..] == a[1..] + b;
      Join(a[1..], b, After(a[0], k));
    }
  }

  lemma One(op: Op, k: Known)
    requires Allowed(op, k)
    ensures Disciplined([op], k) && End([op], k) == After(op, k)
  {
    assert [op][1..] == [];
  }

  lemma {:induction false} AccessesOk(addrs: seq<U16>, k: Known)
    requires k.held && forall i :: 0 <= i < |addrs| ==> Bank(addrs[i]) == k.bank
    ensures Disciplined(Accesses(addrs), k) && End(Accesses(addrs), k) == k
  {
    if addrs != [] {
      AccessesOk(addrs[1..], k);
      One(Access(addrs[0]), k);
      Join([Access(addrs[0])], Accesses(addrs[1..]), k);
    }
  }

  lemma SectionOk(bank: U16, addrs: seq<U16>, k: Known)
    requires k.held && Bank(bank) < 4 && forall i :: 0 <= i < |addrs| ==> Bank(addrs[i]) == Bank(bank)
    ensures Disciplined(Section(bank, addrs), k) && End(Section(bank, addrs), k) == Known(true, Bank(bank))
  {
    One(SetBank(bank), k);
    AccessesOk(addrs, Known(true, Bank(bank)));
    Join([SetBank(bank)], Accesses(addrs), k);
  }

  lemma {:induction false} PollOk(addr: U16, times: nat, k: Known)
    requires Allowed(Access(addr), k)
    ensures Disciplined(Poll(addr, times), k) && End(Poll(addr, times), k) == k
  {
    if times > 0 {
      PollOk(addr, times - 1, k);
      One(Access(addr), k);
      Join([Access(addr)], Poll(addr, times - 1), k);
    }
  }

  lemma {:induction false} TransfersOk(times: nat, k: Known)
    ensures Disciplined(Transfers(times), k) && End(Transfers(times), k) == k
  {
    if times > 0 {
      TransfersOk(times - 1, k);
      One(Transfer, k);
      Join([Transfer], Transfers(times - 1), k);
    }
  }

  lemma WritePhyOk(polls: nat, k: Known)
    requires k.held
    ensures Disciplined(WritePhy(polls), k) && End(WritePhy(polls), k) == Known(true, 3)
  {
    var k' := Known(true, 2);
    SectionOk(MIREGADR, [MIREGADR, MIWRL, MIWRH], k);
    SectionOk(MISTAT, [], k');
    PollOk(MISTAT, polls, Known(true, 3));
    Join(Section(MISTAT, []), Poll(MISTAT, polls), k');
    Join(Section(MIREGADR, [MIREGADR, MIWRL, MIWRH]), Section(MISTAT, []) + Poll(MISTAT, polls), k);
  }

  lemma InitBuffersOk(polls: nat, k: Known)
    requires k.held
    ensures Disciplined(InitBuffers(polls), k) && End(InitBuffers(polls), k) == Known(true, 1)
  {
    var regs: seq<U16> := [ERXSTL, ERXSTH, ERXRDPTL, ERXRDPTH, ERXNDL, ERXNDH, ETXSTL, ETXSTH,
                           ETXNDL, ETXNDH, ERDPTL, ERDPTH, EWRPTL, EWRPTH];
    SectionOk(ERXSTL, regs, k);
    SectionOk(ERXFCON, [ERXFCON], Known(true, 0));
    PollOk(ESTAT, polls, Known(true, 1));
    Join(Section(ERXFCON, [ERXFCON]), Poll(ESTAT, polls), Known(true, 0));
    Join(Section(ERXSTL, regs), Section(ERXFCON, [ERXFCON]) + Poll(ESTAT, polls), k);
  }

  lemma InitMacOk(fullDuplex: bool, k: Known)
    requires k.held
    ensures Disciplined(InitMac(fullDuplex), k) && End(InitMac(fullDuplex), k) == Known(true, 3)
  {
    var rest: seq<U16> := if fullDuplex then [MAIPGH, MABBIPG] else [MABBIPG, MACON4];
    SectionOk(MACON1, [MACON1, MACON1, MACON3, MAIPGL] + rest, k);
    SectionOk(MAADR0, [MAADR0, MAADR1, MAADR2, MAADR3, MAADR4, MAADR5], Known(true, 2));
    Join(Section(MACON1, [MACON1, MACON1, MACON3, MAIPGL] + rest),
         Section(MAADR0, [MAADR0, MAADR1, MAADR2, MAADR3, MAADR4, MAADR5]), k);
  }

  lemma EnableOk(k: Known)
    requires k.held
    ensures Disciplined(EnableDevice(), k) && End(EnableDevice(), k) == Known(false, UNKNOWN)
  {
    var rest := [SetBit(ECON1, RXEN), Unlock];
    One(Unlock, k);
    assert rest[1..] == [Unlock];
    assert Disciplined(rest, k) && End(rest, k) == Known(false, UNKNOWN);
    assert EnableDevice()[1..][1..] == rest;
  }

  /** The whole initialisation, which behaves as the first holder of tx_rx_sem. */
  lemma InitOk(fullDuplex: bool, polls: nat, phy1: nat, phy2: nat)
    ensures Proper(InitDevice(fullDuplex, polls, phy1, phy2), Known(true, UNKNOWN))
  {
    var k := Known(true, 3);
    InitBuffersOk(polls, Known(true, UNKNOWN));
    InitMacOk(fullDuplex, Known(true, 1));
    WritePhyOk(phy1, k);
    WritePhyOk(phy2, k);
    EnableOk(k);
    Join(WritePhy(phy2), EnableDevice(), k);
    Join(WritePhy(phy1), WritePhy(phy2) + EnableDevice(), k);
    Join(InitMac(fullDuplex), WritePhy(phy1) + (WritePhy(phy2) + EnableDevice()), Known(true, 1));
    Join(InitBuffers(polls), InitMac(fullDuplex) + (WritePhy(phy1) + (WritePhy(phy2) + EnableDevice())),
         Known(true, UNKNOWN));
  }

  lemma TxTailOk(polls: nat, k: Known)
    requires k == Known(true, 0)
    ensures Proper([SetBit(ECON1, TXRTS)] + (Poll(EIR, polls) + ([Access(ESTAT)] + [Unlock])), k)
  {
    One(SetBit(ECON1, TXRTS), k);
    PollOk(EIR, polls, k);
    One(Access(ESTAT), k);
    One(Unlock, k);
    Join([Access(ESTAT)], [Unlock], k);
    Join(Poll(EIR, polls), [Access(ESTAT)] + [Unlock], k);
    Join([SetBit(ECON1, TXRTS)], Poll(EIR, polls) + ([Access(ESTAT)] + [Unlock]), k);
  }

  lemma TxOk(frags: nat, polls: nat)
    ensures Proper(Tx(frags, polls), Known(false, UNKNOWN))
  {
    var k := Known(true, 0);
    var head := [Lock, SetBit(ECON1, TXRST), ClearBit(ECON1, TXRST)];
    var tail := [SetBit(ECON1, TXRTS)] + (Poll(EIR, polls) + ([Access(ESTAT)] + [Unlock]));
    assert head[1..] == [SetBit(ECON1, TXRST), ClearBit(ECON1, TXRST)];
    assert head[1..][1..] == [ClearBit(ECON1, TXRST)];
    One(ClearBit(ECON1, TXRST), Known(true, UNKNOWN));
    assert Disciplined(head[1..], Known(true, UNKNOWN)) && End(head[1..], Known(true, UNKNOWN)) == Known(true, UNKNOWN);
    SectionOk(ETXSTL, [EWRPTL, EWRPTH, ETXSTL, ETXSTH], Known(true, UNKNOWN));
    TransfersOk(1 + frags, k);
    AccessesOk([ETXNDL, ETXNDH], k);
    TxTailOk(polls, k);
    Join(Accesses([ETXNDL, ETXNDH]), tail, k);
    Join(Transfers(1 + frags), Accesses([ETXNDL, ETXNDH]) + tail, k);
    Join(Section(ETXSTL, [EWRPTL, EWRPTH, ETXSTL, ETXSTH]), Transfers(1 + frags) + (Accesses([ETXNDL, ETXNDH]) + tail),
         Known(true, UNKNOWN));
    Join(head,
         Section(ETXSTL, [EWRPTL, EWRPTH, ETXSTL, ETXSTH])
         + (Transfers(1 + frags) + (Accesses([ETXNDL, ETXNDH]) + tail)),
         Known(false, UNKNOWN));
  }

  lemma RxPacketOk(transfers: nat, k: Known)
    requires k.held
    ensures Disciplined(RxPacket(transfers), k) && End(RxPacket(transfers), k) == Known(true, 1)
  {
    TransfersOk(transfers, k);
    SectionOk(ERXRDPTL, [ERXRDPTL, ERXRDPTH], k);
    One(SetBit(ECON2, Elsewhere), Known(true, 0));
    SectionOk(EPKTCNT, [EPKTCNT], Known(true, 0));
    Join([SetBit(ECON2, Elsewhere)], Section(EPKTCNT, [EPKTCNT]), Known(true, 0));
    Join(Section(ERXRDPTL, [ERXRDPTL, ERXRDPTH]), [SetBit(ECON2, Elsewhere)] + Section(EPKTCNT, [EPKTCNT]), k);
    Join(Transfers(transfers),
         Section(ERXRDPTL, [ERXRDPTL, ERXRDPTH]) + ([SetBit(ECON2, Elsewhere)] + Section(EPKTCNT, [EPKTCNT])), k);
  }

  lemma {:induction false} RxPacketsOk(packets: seq<nat>, k: Known)
    requires k.held
    ensures Disciplined(RxPackets(packets), k) && End(RxPackets(packets), k).held
  {
    if packets != [] {
      RxPacketOk(packets[0], k);
      RxPacketsOk(packets[1..], Known(true, 1));
      Join(RxPacket(packets[0]), RxPackets(packets[1..]), k);
    }
  }

  lemma RoundOk(pending: bool, packets: seq<nat>)
    ensures Proper(ReceiveRound(pending, packets), Known(false, UNKNOWN))
  {
    var free, k := Known(false, UNKNOWN), Known(true, UNKNOWN);
    One(Access(EIR), free);
    if pending {
      var tail := [Unlock, ClearBit(EIR, Elsewhere)];
      One(Lock, free);
      RxPacketsOk(packets, k);
      One(ClearBit(EIR, Elsewhere), free);
      assert tail[1..] == [ClearBit(EIR, Elsewhere)];
      Join(RxPackets(packets), tail, k);
      Join([Lock], RxPackets(packets) + tail, free);
      Join([Access(EIR)], [Lock] + (RxPackets(packets) + tail), free);
    } else {
      assert [Access(EIR)] + [] == [Access(EIR)];
    }
  }

  lemma ProgramOk(call: Call)
    ensures Proper(Program(call), Known(false, UNKNOWN))
  {
    match call
    case Send(frags, polls) => TxOk(frags, polls);
    case Round(pending, packets) => RoundOk(pending, packets);
  }
}
