/** Erasing a range of a W25Q serial flash: drivers/flash/spi_flash_w25qxxdv.c with the
    sizes and opcodes of spi_flash_w25qxxdv_defs.h. */
module W25qErase {
  import opened CTypes
  import Bits

  const SECTOR := 0x1000
  const BLOCK32K := 0x8000
  const BLOCK64K := 0x10000
  const CMD_WREN: U8 := 0x06
  const CMD_SE: U8 := 0x20
  const CMD_BE32K: U8 := 0x52
  const CMD_BE: U8 := 0xD8
  const CMD_CE: U8 := 0x60

  /** Unsigned 32-bit addition. */
  function Add32(x: U32, y: U32): U32 {
    if x as int + y as int < 0x1_0000_0000 then x as int + y as int else x as int + y as int - 0x1_0000_0000
  }

  // ---------------------------------------------------------------- the chip

  /** NOR memory and the write-enable latch, which every erase clears. */
  datatype Chip = Chip(mem: seq<U8>, wel: bool)

  /** mem with the bytes at lo up to hi erased. */
  function Erased(mem: seq<U8>, lo: int, hi: int): (r: seq<U8>)
    ensures |r| == |mem|
    ensures forall a :: 0 <= a < |mem| ==> r[a] == if lo <= a < hi then 0xFF else mem[a]
  {
    seq(|mem|, a requires 0 <= a < |mem| => if lo <= a < hi then 0xFF else mem[a])
  }

  function BlockLength(opcode: U8): nat {
    if opcode == CMD_SE then SECTOR
    else if opcode == CMD_BE32K then BLOCK32K
    else if opcode == CMD_BE then BLOCK64K
    else 0
  }

  /** What the chip does with the bytes of one transfer. An erase acts on the whole aligned
      block that contains the address, and only with the latch set. */
  function Exec(chip: Chip, bytes: seq<U8>): Chip {
    if bytes == [CMD_WREN] then chip.(wel := true)
    else if bytes == [CMD_CE] && chip.wel then Chip(Erased(chip.mem, 0, |chip.mem|), false)
    else if |bytes| == 4 && BlockLength(bytes[0]) > 0 && chip.wel then
      var a: int := bytes[1] as int * 0x10000 + bytes[2] as int * 0x100 + bytes[3] as int;
      var n := BlockLength(bytes[0]);
      Chip(Erased(chip.mem, a - a % n, a - a % n + n), false)
    else chip
  }

  // ---------------------------------------------------------------- the requests

  /** The guard of spi_flash_wb_erase; size + offset is computed in 32 bits. */
  predicate Accepted(flashSize: nat, offset: I32, size: U32) {
    && offset >= 0 && offset % SECTOR == 0
    && Add32(size, offset) <= flashSize
    && size % SECTOR == 0
  }

  /** The guard keeps the request inside the flash exactly when offset + size does not
      overflow 32 bits. */
  lemma GuardExact(flashSize: nat, offset: I32, size: U32)
    requires flashSize <= 0x100_0000 && Accepted(flashSize, offset, size)
    ensures offset + size <= flashSize <==> offset + size < 0x1_0000_0000
  {
  }

  /** A request that passes the guard and lies outside the flash. */
  lemma GuardWraps()
    ensures Accepted(0x20_0000, 0x1000, 0xFFFF_F000) && 0x1000 + 0xFFFF_F000 > 0x20_0000
  {
  }

  /** The first block command starts on a multiple of its own length. */
  predicate BlockAligned(flashSize: nat, offset: nat, size: nat) {
    || size == flashSize
    || ((size >= BLOCK64K ==> offset % BLOCK64K == 0) && (size >= BLOCK32K ==> offset % BLOCK32K == 0))
  }

  /** One erase command: its address and the length it is meant to cover. */
  datatype Block = Block(address: nat, length: nat)

  function Opcode(flashSize: nat, length: nat): U8 {
    if length == SECTOR then CMD_SE
    else if length == BLOCK32K then CMD_BE32K
    else if length == BLOCK64K then CMD_BE
    else CMD_CE
  }

  /** The bytes of an erase transfer: opcode and 24-bit address, or the opcode alone. */
  function Bytes(flashSize: nat, b: Block): seq<U8> {
    if b.length == flashSize then [CMD_CE]
    else [Opcode(flashSize, b.length), b.address / 0x10000 % 0x100, b.address / 0x100 % 0x100, b.address % 0x100]
  }

  /** The commands byte by byte: 4K, 32K and 64K blocks with their address, highest byte
      first, and the whole chip. */
  lemma CommandBytes(flashSize: nat, address: nat)
    requires BLOCK64K < flashSize && address < 0x100_0000
    ensures exists hi: U8, mid: U8, lo: U8 ::
      && address == hi * 65536 + mid * 256 + lo
      && Bytes(flashSize, Block(address, 4096)) == [0x20, hi, mid, lo]
      && Bytes(flashSize, Block(address, 32768)) == [0x52, hi, mid, lo]
      && Bytes(flashSize, Block(address, 65536)) == [0xD8, hi, mid, lo]
    ensures Bytes(flashSize, Block(address, flashSize)) == [0x60]
  {
    var hi: U8, mid: U8, lo: U8 := address / 0x10000 % 0x100, address / 0x100 % 0x100, address % 0x100;
    assert address / 0x10000 == address / 0x100 / 0x100;
    assert Bytes(flashSize, Block(address, 4096)) == [0x20, hi, mid, lo];
  }

  /** The length of the next command. */
  function NextLength(remaining: nat): nat {
    if remaining >= BLOCK64K then BLOCK64K else if remaining >= BLOCK32K then BLOCK32K else SECTOR
  }

  /** Largest blocks first: the commands a request of a whole number of sectors needs. */
  function Blocks(address: nat, size: nat): seq<Block>
    decreases size
  {
    if size < SECTOR then []
    else
      var n := NextLength(size);
      [Block(address, n)] + Blocks(address + n, size - n)
  }

  function Plan(flashSize: nat, offset: nat, size: nat): seq<Block> {
    if size == flashSize then [Block(offset, size)] else Blocks(offset, size)
  }

  /** Every erase transfer directly follows a write-enable of its own. */
  function Transfers(flashSize: nat, blocks: seq<Block>): seq<seq<U8>> {
    if blocks == [] then [] else [[CMD_WREN], Bytes(flashSize, blocks[0])] + Transfers(flashSize, blocks[1..])
  }

  /** The chip after a sequence of erase commands, each with its write-enable. */
  function After(flashSize: nat, chip: Chip, blocks: seq<Block>): Chip
    decreases |blocks|
  {
    if blocks == [] then chip
    else After(flashSize, Exec(Exec(chip, [CMD_WREN]), Bytes(flashSize, blocks[0])), blocks[1..])
  }

  lemma SectorsLeft(remaining: nat)
    requires remaining >= SECTOR && remaining % SECTOR == 0
    ensures NextLength(remaining) <= remaining && (remaining - NextLength(remaining)) % SECTOR == 0
  {
    var m := remaining / SECTOR;
    var k := NextLength(remaining) / SECTOR;
    assert remaining - NextLength(remaining) == SECTOR * (m - k);
  }

  lemma PlanHead(flashSize: nat, address: nat, size: nat)
    requires SECTOR <= size < flashSize
    ensures Plan(flashSize, address, size)
         == [Block(address, NextLength(size))] + Plan(flashSize, address + NextLength(size), size - NextLength(size))
  {
  }

  // ---------------------------------------------------------------- the bus

  /** The chip behind its bus, the transfers attempted and those that reached the chip. */
  datatype Link = Link(chip: Chip, sent: nat, log: seq<seq<U8>>)

  /** One transfer; number k fails when fault(k) holds, and then does not reach the chip. */
  function Sent(l: Link, bytes: seq<U8>, fault: nat -> bool): Link {
    if fault(l.sent) then l.(sent := l.sent + 1) else Link(Exec(l.chip, bytes), l.sent + 1, l.log + [bytes])
  }

  /** A write-enable, whose result nobody looks at, and the erase command. */
  function Erase1(l: Link, flashSize: nat, b: Block, fault: nat -> bool): Link {
    Sent(Sent(l, [CMD_WREN], fault), Bytes(flashSize, b), fault)
  }

  /** Commands in order, up to the first whose own transfer fails. */
  function EraseAll(l: Link, flashSize: nat, blocks: seq<Block>, fault: nat -> bool): Link
    decreases |blocks|
  {
    if blocks == [] then l
    else
      var m := Erase1(l, flashSize, blocks[0], fault);
      if fault(l.sent + 1) then m else EraseAll(m, flashSize, blocks[1..], fault)
  }

  /** No erase command fails on the bus. */
  predicate Clear(blocks: seq<Block>, sent: nat, fault: nat -> bool) {
    blocks == [] || (!fault(sent + 1) && Clear(blocks[1..], sent + 2, fault))
  }

  /** 64K blocks from an address up to the first that is negative as an off_t. */
  function Climb(address: nat): seq<Block>
    decreases 0x8000_0000 - address
  {
    if address >= 0x8000_0000 then [] else [Block(address, BLOCK64K)] + Climb(address + BLOCK64K)
  }

  /** The commands of an accepted request: its plan, or the climb of a request whose end
      overflows 32 bits. */
  function Route(flashSize: nat, end: nat, offset: nat): seq<Block>
    requires offset <= end
  {
    if end <= flashSize then Plan(flashSize, offset, end - offset) else Climb(offset)
  }

  /** What the request returns. */
  function Verdict(inside: bool, clear: bool): int {
    if !clear then -EIO else if inside then 0 else -ENOTSUP
  }

  lemma EraseAllHead(l: Link, flashSize: nat, b: Block, rest: seq<Block>, fault: nat -> bool)
    ensures EraseAll(l, flashSize, [b] + rest, fault) ==
      if fault(l.sent + 1) then Erase1(l, flashSize, b, fault)
      else EraseAll(Erase1(l, flashSize, b, fault), flashSize, rest, fault)
    ensures Clear([b] + rest, l.sent, fault) == (!fault(l.sent + 1) && Clear(rest, l.sent + 2, fault))
    ensures Erase1(l, flashSize, b, fault).sent == l.sent + 2
  {
    assert ([b] + rest)[1..] == rest;
  }

  /** A round of the loop that does not erase the whole chip. */
  lemma RouteHead(flashSize: nat, end: nat, offset: nat)
    requires offset < 0x8000_0000 && flashSize <= 0x100_0000
    requires if end <= flashSize then offset + SECTOR <= end && end - offset != flashSize else end >= 0x1_0000_0000
    ensures var n := NextLength(end - offset);
      && offset + n <= end
      && Route(flashSize, end, offset) == [Block(offset, n)] + Route(flashSize, end, offset + n)
  {
    if end <= flashSize {
      PlanHead(flashSize, offset, end - offset);
    }
  }

  /** From l the commands still to come lead to the link final, and clear tells whether none
      of them fails. */
  ghost predicate EnRoute(l: Link, flashSize: nat, fault: nat -> bool, end: nat, offset: nat,
                          final: Link, clear: bool) {
    && offset <= end
    && forall blocks :: blocks == Route(flashSize, end, offset) ==>
         EraseAll(l, flashSize, blocks, fault) == final && Clear(blocks, l.sent, fault) == clear
  }

  /** One command of the route. */
  lemma RouteStep(l: Link, flashSize: nat, fault: nat -> bool, end: nat, offset: nat, final: Link, clear: bool)
    requires offset < 0x8000_0000 && flashSize <= 0x100_0000
    requires if end <= flashSize then offset + SECTOR <= end && end - offset != flashSize else end >= 0x1_0000_0000
    requires EnRoute(l, flashSize, fault, end, offset, final, clear)
    ensures var n := NextLength(end - offset);
      var m := Erase1(l, flashSize, Block(offset, n), fault);
      if fault(l.sent + 1) then m == final && !clear
      else EnRoute(m, flashSize, fault, end, offset + n, final, clear)
  {
    var n := NextLength(end - offset);
    RouteHead(flashSize, end, offset);
    StepAlong(l, flashSize, fault, Block(offset, n), Route(flashSize, end, offset + n), Route(flashSize, end, offset));
  }

  /** The route ends where addresses turn negative, and at the end of the request. */
  lemma RouteEnd(l: Link, flashSize: nat, fault: nat -> bool, end: nat, offset: nat, final: Link, clear: bool)
    requires flashSize > 0 && EnRoute(l, flashSize, fault, end, offset, final, clear)
    requires if end <= flashSize then offset == end else offset >= 0x8000_0000
    ensures l == final && clear
  {
    assert EraseAll(l, flashSize, Route(flashSize, end, offset), fault) == final;
  }

  lemma StepAlong(l: Link, flashSize: nat, fault: nat -> bool, b: Block, rest: seq<Block>, all: seq<Block>)
    requires all == [b] + rest
    ensures var m := Erase1(l, flashSize, b, fault);
      if fault(l.sent + 1) then m == EraseAll(l, flashSize, all, fault) && !Clear(all, l.sent, fault)
      else
        && EraseAll(m, flashSize, rest, fault) == EraseAll(l, flashSize, all, fault)
        && Clear(rest, m.sent, fault) == Clear(all, l.sent, fault)
  {
    EraseAllHead(l, flashSize, b, rest, fault);
  }

  /** The loop goes on: offset and remaining make up the request, and the route lies ahead. */
  ghost predicate Going(l: Link, flashSize: nat, fault: nat -> bool, end: nat, offset: nat, remaining: nat,
                        final: Link, clear: bool) {
    && offset + remaining == end && remaining % SECTOR == 0
    && (end <= flashSize || (end >= 0x1_0000_0000 && offset <= 0x8000_0000 + BLOCK64K))
    && EnRoute(l, flashSize, fault, end, offset, final, clear)
  }

  /** A command at an address converted to off_t: a negative one is not sent. */
  function After1(l: Link, flashSize: nat, offset: nat, length: nat, fault: nat -> bool): Link {
    if offset >= 0x8000_0000 then l else Erase1(l, flashSize, Block(offset, length), fault)
  }

  /** One round that does not erase the whole chip. */
  lemma Round(l: Link, flashSize: nat, fault: nat -> bool, end: nat, offset: nat, remaining: nat,
              final: Link, clear: bool)
    requires 0 < flashSize <= 0x100_0000 && SECTOR <= remaining != flashSize
    requires Going(l, flashSize, fault, end, offset, remaining, final, clear)
    ensures var n := NextLength(remaining);
      var m := After1(l, flashSize, offset, n, fault);
      && n <= remaining
      && (offset >= 0x8000_0000 ==> m == final && -ENOTSUP == Verdict(end <= flashSize, clear))
      && (offset < 0x8000_0000 && fault(l.sent + 1) ==> m == final && -EIO == Verdict(end <= flashSize, clear))
      && (offset < 0x8000_0000 && !fault(l.sent + 1) ==>
            Going(m, flashSize, fault, end, offset + n, remaining - n, final, clear))
  {
    SectorsLeft(remaining);
    if offset < 0x8000_0000 {
      RouteStep(l, flashSize, fault, end, offset, final, clear);
    } else {
      RouteEnd(l, flashSize, fault, end, offset, final, clear);
    }
  }

  /** The loop ends only on a request inside the flash, with the route at its end. */
  lemma LastRound(l: Link, flashSize: nat, fault: nat -> bool, end: nat, offset: nat, remaining: nat,
                  final: Link, clear: bool)
    requires 0 < flashSize && remaining < SECTOR && Going(l, flashSize, fault, end, offset, remaining, final, clear)
    ensures l == final && Verdict(end <= flashSize, clear) == 0
  {
    RouteEnd(l, flashSize, fault, end, offset, final, clear);
  }

  /** The round that erases the whole chip. */
  lemma WholeRound(l: Link, flashSize: nat, fault: nat -> bool, end: nat, offset: nat, remaining: nat,
                   final: Link, clear: bool)
    requires SECTOR <= remaining == flashSize <= 0x100_0000
    requires Going(l, flashSize, fault, end, offset, remaining, final, clear)
    ensures offset == 0 && end == flashSize && clear == !fault(l.sent + 1)
    ensures Erase1(l, flashSize, Block(0, flashSize), fault) == final
  {
    assert Route(flashSize, end, 0) == [Block(0, flashSize)] + [];
    EraseAllHead(l, flashSize, Block(0, flashSize), [], fault);
  }

  // ---------------------------------------------------------------- the driver

  predicate IsLength(flashSize: nat, size: int) {
    size == SECTOR || size == BLOCK32K || size == BLOCK64K || size == flashSize
  }

  class Flash {
    const flashSize: nat
    const fault: nat -> bool
    var chip: Chip
    var sent: nat
    var log: seq<seq<U8>>

    predicate Valid()
      reads this
    {
      BLOCK64K < flashSize <= 0x100_0000 && flashSize % SECTOR == 0 && |chip.mem| == flashSize
    }

    function State(): Link
      reads this
    {
      Link(chip, sent, log)
    }

    /** A flash of some contents on a bus whose k-th transfer fails if fault(k). */
    constructor (contents: seq<U8>, fault: nat -> bool)
      requires BLOCK64K < |contents| <= 0x100_0000 && |contents| % SECTOR == 0
      ensures Valid() && flashSize == |contents| && this.fault == fault
      ensures State() == Link(Chip(contents, false), 0, [])
    {
      flashSize, this.fault := |contents|, fault;
      chip, sent, log := Chip(contents, false), 0, [];
    }

    method Transfer(bytes: seq<U8>) returns (ret: int)
      modifies this
      ensures State() == Sent(old(State()), bytes, fault) && |chip.mem| == old(|chip.mem|)
      ensures ret == if fault(old(sent)) then -EIO else 0
    {
      ret := -EIO;
      if !fault(sent) {
        chip, log, ret := Exec(chip, bytes), log + [bytes], 0;
      }
      sent := sent + 1;
    }

    /** spi_flash_wb_erase_internal. */
    method EraseBlock(offset: I32, size: U32) returns (ret: int)
      requires Valid()
      modifies this
      ensures Valid()
      ensures offset < 0 ==> ret == -ENOTSUP && State() == old(State())
      ensures offset >= 0 && !IsLength(flashSize, size) ==>
        ret == -EIO && State() == Sent(old(State()), [CMD_WREN], fault)
      ensures offset >= 0 && IsLength(flashSize, size) ==>
        && ret == (if fault(old(sent) + 1) then -EIO else 0)
        && State() == Erase1(old(State()), flashSize, Block(offset, size), fault)
    {
      if offset < 0 {
        return -ENOTSUP;
      }
      var _ := Transfer([CMD_WREN]);
      var opcode: U8;
      if size == SECTOR {
        opcode := CMD_SE;
      } else if size == BLOCK32K {
        opcode := CMD_BE32K;
      } else if size == BLOCK64K {
        opcode := CMD_BE;
      } else if size == flashSize {
        opcode := CMD_CE;
      } else {
        return -EIO;
      }
      var buf := [opcode, offset / 0x10000 % 0x100, offset / 0x100 % 0x100, offset % 0x100];
      var bytes := if opcode == CMD_CE then buf[..1] else buf;
      ret := Transfer(bytes);
    }

    /** A command at an address that is converted to off_t. */
    method EraseAt(offset: U32, length: U32) returns (ret: int)
      requires Valid() && length in {SECTOR, BLOCK32K, BLOCK64K}
      modifies this
      ensures Valid()
      ensures if offset >= 0x8000_0000 then ret == -ENOTSUP
              else ret == if fault(old(sent) + 1) then -EIO else 0
      ensures State() == After1(old(State()), flashSize, offset, length, fault)
    {
      ret := EraseBlock(Signed32(offset), length);
    }

    /** One round of the erase loop: the largest block that fits. */
    method EraseNext(offset: U32, remaining: U32, ghost l: Link, ghost end: nat, ghost final: Link, ghost clear: bool)
      returns (ret: int, next: U32, left: U32, ghost m: Link)
      requires Valid() && State() == l && SECTOR <= remaining != flashSize
      requires Going(l, flashSize, fault, end, offset, remaining, final, clear)
      modifies this
      ensures Valid() && State() == m && left < remaining
      ensures ret == 0 ==> Going(m, flashSize, fault, end, next, left, final, clear)
      ensures ret != 0 ==> m == final && ret == Verdict(end <= flashSize, clear)
    {
      Round(l, flashSize, fault, end, offset, remaining, final, clear);
      var length := NextLength(remaining);
      m := After1(l, flashSize, offset, length, fault);
      ret := EraseAt(offset, length);
      next, left := Add32(offset, length), remaining - length;
    }

    /** The erase loop of spi_flash_wb_erase: the largest block that fits, round by round. */
    method EraseLoop(offset: I32, size: U32) returns (ret: int)
      requires Valid() && offset >= 0 && size % SECTOR == 0
      requires offset + size <= flashSize || offset + size >= 0x1_0000_0000
      modifies this
      ensures Valid()
      ensures var route := Route(flashSize, offset + size, offset);
        && State() == EraseAll(old(State()), flashSize, route, fault)
        && ret == Verdict(offset + size <= flashSize, Clear(route, old(sent), fault))
    {
      ghost var l, end := State(), offset + size;
      ghost var final := EraseAll(l, flashSize, Route(flashSize, end, offset), fault);
      ghost var clear := Clear(Route(flashSize, end, offset), l.sent, fault);
      ret := EraseRounds(offset, size, end, final, clear);
    }

    /** The rounds of the loop, to the end of the route. */
    method EraseRounds(offset: I32, size: U32, ghost end: nat, ghost final: Link, ghost clear: bool) returns (ret: int)
      requires Valid() && offset >= 0
      requires Going(State(), flashSize, fault, end, offset, size, final, clear)
      modifies this
      ensures Valid() && State() == final && ret == Verdict(end <= flashSize, clear)
    {
      ret := 0;
      var newOffset: U32, remaining: U32 := offset, size;
      ghost var l := State();
      while remaining >= SECTOR && ret == 0
        invariant Valid() && State() == l
        invariant ret == 0 ==> Going(l, flashSize, fault, end, newOffset, remaining, final, clear)
        invariant ret != 0 ==> l == final && ret == Verdict(end <= flashSize, clear)
        decreases remaining
      {
        if remaining == flashSize {
          WholeRound(l, flashSize, fault, end, newOffset, remaining, final, clear);
          ret := EraseBlock(offset, size);
          return;
        }
        ret, newOffset, remaining, l := EraseNext(newOffset, remaining, l, end, final, clear);
      }
      if ret == 0 {
        LastRound(l, flashSize, fault, end, newOffset, remaining, final, clear);
      }
    }

    /** spi_flash_wb_erase. configured is the outcome of selecting and identifying the chip.
        For every request and every bus. */
    method Erase(offset: I32, size: U32, configured: bool) returns (ret: int)
      requires Valid()
      modifies this
      ensures Valid()
      ensures !Accepted(flashSize, offset, size) ==> ret == -ENODEV && State() == old(State())
      ensures offset < 0 || offset % 0x1000 != 0 || size % 0x1000 != 0 ==> ret == -ENODEV && State() == old(State())
      ensures offset >= 0 && flashSize < offset + size < 0x1_0000_0000 ==> ret == -ENODEV && State() == old(State())
      ensures offset >= 0 && offset % 0x1000 == 0 && size % 0x1000 == 0 && offset + size <= flashSize ==> ret != -ENODEV
      ensures Accepted(flashSize, offset, size) && !(configured && old(chip.wel)) ==>
                ret == -EIO && State() == old(State())
      ensures Accepted(flashSize, offset, size) && configured && old(chip.wel) ==>
                var route := Route(flashSize, offset + size, offset);
                && State() == EraseAll(old(State()), flashSize, route, fault)
                && ret == Verdict(offset + size <= flashSize, Clear(route, old(sent), fault))
    {
      if !(offset >= 0 && offset % SECTOR == 0 && Add32(size, offset) <= flashSize && size % SECTOR == 0) {
        return -ENODEV;
      }
      if !configured || !chip.wel {
        return -EIO;
      }
      GuardExact(flashSize, offset, size);
      ret := EraseLoop(offset, size);
    }
  }

  // ---------------------------------------------------------------- what the commands do

  /** The commands cover [address, address + size) in order, without gap or overlap. */
  predicate Tiles(blocks: seq<Block>, address: nat, size: nat) {
    if blocks == [] then size == 0
    else
      && blocks[0].address == address && 0 < blocks[0].length <= size
      && Tiles(blocks[1..], address + blocks[0].length, size - blocks[0].length)
  }

  lemma {:induction false} BlocksTile(address: nat, size: nat)
    requires size % SECTOR == 0
    ensures Tiles(Blocks(address, size), address, size)
    decreases size
  {
    if size >= SECTOR {
      var n := NextLength(size);
      BlocksTile(address + n, size - n);
      assert Blocks(address, size)[1..] == Blocks(address + n, size - n);
    }
  }

  lemma PlanTiles(flashSize: nat, offset: nat, size: nat)
    requires size % SECTOR == 0 && flashSize > 0
    ensures Tiles(Plan(flashSize, offset, size), offset, size)
  {
    BlocksTile(offset, size);
  }

  /** The address bytes carry any 24-bit address. */
  lemma AddressBytes(a: nat)
    requires a < 0x100_0000
    ensures a / 0x10000 % 0x100 * 0x10000 + a / 0x100 % 0x100 * 0x100 + a % 0x100 == a
  {
  }

  /** One command erases the aligned block around its address, whatever the latch was. */
  lemma CommandErases(flashSize: nat, chip: Chip, b: Block)
    requires BLOCK64K < flashSize && b.address < 0x100_0000 && b.length in {SECTOR, BLOCK32K, BLOCK64K}
    ensures Exec(Exec(chip, [CMD_WREN]), Bytes(flashSize, b))
         == Chip(Erased(chip.mem, b.address - b.address % b.length, b.address - b.address % b.length + b.length), false)
  {
    AddressBytes(b.address);
  }

  /** Alignment of a sector-aligned range for largest-first erasing. */
  predicate Fits(address: nat, size: nat) {
    && address % SECTOR == 0 && size % SECTOR == 0
    && (size >= BLOCK64K ==> address % BLOCK64K == 0)
    && (size >= BLOCK32K ==> address % BLOCK32K == 0)
  }

  lemma FitsNext(address: nat, size: nat)
    requires Fits(address, size) && size >= SECTOR
    ensures address % NextLength(size) == 0 && Fits(address + NextLength(size), size - NextLength(size))
  {
    if size >= BLOCK64K {
      FitsAfter64(address, size);
    } else if size >= BLOCK32K {
      FitsAfter32(address, size);
    }
  }

  lemma FitsAfter64(address: nat, size: nat)
    requires address % BLOCK64K == 0 && size >= BLOCK64K && size % SECTOR == 0
    ensures Fits(address + BLOCK64K, size - BLOCK64K)
  {
    var next := address + BLOCK64K;
    assert next % BLOCK64K == 0;
    assert next % BLOCK32K == 0 by { Divides(next, 2, BLOCK32K); }
    assert next % SECTOR == 0 by { Divides(next, 16, SECTOR); }
    SectorsLeft(size);
  }

  lemma FitsAfter32(address: nat, size: nat)
    requires address % BLOCK32K == 0 && BLOCK32K <= size < BLOCK64K && size % SECTOR == 0
    ensures Fits(address + BLOCK32K, size - BLOCK32K)
  {
    var next := address + BLOCK32K;
    assert next % BLOCK32K == 0;
    assert next % SECTOR == 0 by { Divides(next, 8, SECTOR); }
    SectorsLeft(size);
  }

  lemma Divides(x: nat, k: nat, d: nat)
    requires k > 0 && d > 0 && k * d > 0 && x % (k * d) == 0
    ensures x % d == 0
  {
    var q := x / (k * d);
    assert x == (k * d) * q == d * (k * q) + 0;
    Bits.DivModUnique(x, d, k * q, 0);
  }

  lemma {:induction false} BlocksErase(flashSize: nat, chip: Chip, address: nat, size: nat)
    requires BLOCK64K < flashSize && Fits(address, size) && address + size <= 0x100_0000
    ensures After(flashSize, chip, Blocks(address, size)).mem == Erased(chip.mem, address, address + size)
    decreases size
  {
    if size >= SECTOR {
      var n := NextLength(size);
      FitsNext(address, size);
      CommandErases(flashSize, chip, Block(address, n));
      var next := Chip(Erased(chip.mem, address, address + n), false);
      assert Blocks(address, size)[1..] == Blocks(address + n, size - n);
      BlocksErase(flashSize, next, address + n, size - n);
    }
  }

  /** What is erased stays erased. */
  lemma {:induction false} StaysErased(flashSize: nat, chip: Chip, blocks: seq<Block>, a: nat)
    requires a < |chip.mem| && chip.mem[a] == 0xFF
    ensures |After(flashSize, chip, blocks).mem| == |chip.mem| && After(flashSize, chip, blocks).mem[a] == 0xFF
    decreases |blocks|
  {
    if blocks != [] {
      StaysErased(flashSize, Exec(Exec(chip, [CMD_WREN]), Bytes(flashSize, blocks[0])), blocks[1..], a);
    }
  }

  /** The flash after the planned commands. */
  function Outcome(flashSize: nat, mem: seq<U8>, offset: nat, size: nat): seq<U8> {
    After(flashSize, Chip(mem, true), Plan(flashSize, offset, size)).mem
  }

  /** An aligned request erases exactly its range. */
  lemma AlignedErase(flashSize: nat, mem: seq<U8>, offset: nat, size: nat)
    requires BLOCK64K < flashSize <= 0x100_0000 && |mem| == flashSize
    requires offset % SECTOR == 0 && size % SECTOR == 0 && offset + size <= flashSize
    requires BlockAligned(flashSize, offset, size)
    ensures Outcome(flashSize, mem, offset, size) == Erased(mem, offset, offset + size)
  {
    if size == flashSize {
      var plan, all := Plan(flashSize, offset, size), Chip(Erased(mem, 0, |mem|), false);
      assert plan == [Block(offset, size)] && plan[1..] == [];
      assert Exec(Exec(Chip(mem, true), [CMD_WREN]), Bytes(flashSize, plan[0])) == all;
      assert After(flashSize, all, []) == all;
    } else {
      AlignedFits(flashSize, offset, size);
      BlocksErase(flashSize, Chip(mem, true), offset, size);
    }
  }

  /** The first block then starts before the range. */
  lemma FirstMisaligned(flashSize: nat, offset: nat, size: nat) returns (a: nat)
    requires offset % SECTOR == 0 && !BlockAligned(flashSize, offset, size)
    ensures size >= SECTOR && size != flashSize
    ensures a == offset - offset % NextLength(size) && a < offset < a + NextLength(size)
  {
    if offset % BLOCK64K == 0 {
      Divides(offset, 2, BLOCK32K);
    }
    a := if size >= BLOCK64K then offset - offset % BLOCK64K else offset - offset % BLOCK32K;
  }

  /** A request that is not block-aligned also erases bytes before its range. */
  lemma MisalignedErase(flashSize: nat, mem: seq<U8>, offset: nat, size: nat) returns (a: nat)
    requires BLOCK64K < flashSize <= 0x100_0000 && |mem| == flashSize
    requires offset % SECTOR == 0 && offset + size <= flashSize
    requires !BlockAligned(flashSize, offset, size)
    ensures a < offset < |mem| == |Outcome(flashSize, mem, offset, size)|
    ensures Outcome(flashSize, mem, offset, size)[a] == 0xFF
  {
    a := FirstMisaligned(flashSize, offset, size);
    PlanHead(flashSize, offset, size);
    FirstErases(flashSize, mem, offset, NextLength(size), a);
    FirstCommand(flashSize, mem, Block(offset, NextLength(size)),
                 Plan(flashSize, offset + NextLength(size), size - NextLength(size)), a);
  }

  lemma FirstErases(flashSize: nat, mem: seq<U8>, offset: nat, n: nat, a: nat)
    requires BLOCK64K < flashSize && offset < 0x100_0000 && n in {SECTOR, BLOCK32K, BLOCK64K}
    requires a == offset - offset % n && a < |mem|
    ensures Exec(Exec(Chip(mem, true), [CMD_WREN]), Bytes(flashSize, Block(offset, n)))
         == Chip(Erased(mem, a, a + n), false)
  {
    CommandErases(flashSize, Chip(mem, true), Block(offset, n));
  }

  lemma FirstCommand(flashSize: nat, mem: seq<U8>, b: Block, rest: seq<Block>, a: nat)
    requires a < |mem|
    requires |Exec(Exec(Chip(mem, true), [CMD_WREN]), Bytes(flashSize, b)).mem| == |mem|
    requires Exec(Exec(Chip(mem, true), [CMD_WREN]), Bytes(flashSize, b)).mem[a] == 0xFF
    ensures |After(flashSize, Chip(mem, true), [b] + rest).mem| == |mem|
    ensures After(flashSize, Chip(mem, true), [b] + rest).mem[a] == 0xFF
  {
    assert ([b] + rest)[1..] == rest;
    StaysErased(flashSize, Exec(Exec(Chip(mem, true), [CMD_WREN]), Bytes(flashSize, b)), rest, a);
  }

  /** A request from a multiple of 64K is block-aligned. */
  lemma Aligned64K(flashSize: nat, offset: nat, size: nat)
    requires offset % BLOCK64K == 0
    ensures BlockAligned(flashSize, offset, size)
  {
    Divides(offset, 2, BLOCK32K);
  }

  /** The bytes erased are exactly those requested, for every content of the flash, if and
      only if the request is block-aligned. */
  lemma EraseExactly(flashSize: nat, offset: nat, size: nat)
    requires BLOCK64K < flashSize <= 0x100_0000
    requires offset % SECTOR == 0 && size % SECTOR == 0 && offset + size <= flashSize
    ensures BlockAligned(flashSize, offset, size) <==>
              forall mem :: |mem| == flashSize ==>
                Outcome(flashSize, mem, offset, size) == Erased(mem, offset, offset + size)
  {
    if BlockAligned(flashSize, offset, size) {
      forall mem: seq<U8> | |mem| == flashSize
        ensures Outcome(flashSize, mem, offset, size) == Erased(mem, offset, offset + size)
      {
        AlignedErase(flashSize, mem, offset, size);
      }
    } else {
      var blank: seq<U8> := seq(flashSize, _ => 0);
      var a := MisalignedErase(flashSize, blank, offset, size);
      assert Erased(blank, offset, offset + size)[a] == 0;
      assert Outcome(flashSize, blank, offset, size) != Erased(blank, offset, offset + size);
    }
  }

  // ---------------------------------------------------------------- failing transfers

  /** On a bus without faults the commands have their full effect, and every erase directly
      follows its own write-enable. */
  lemma {:induction false} NoFaults(l: Link, flashSize: nat, blocks: seq<Block>, fault: nat -> bool)
    requires forall k :: !fault(k)
    ensures Clear(blocks, l.sent, fault)
    ensures var m := EraseAll(l, flashSize, blocks, fault);
      m.chip == After(flashSize, l.chip, blocks) && m.log == l.log + Transfers(flashSize, blocks)
    decreases |blocks|
  {
    if blocks != [] {
      var m := Erase1(l, flashSize, blocks[0], fault);
      NoFaults(m, flashSize, blocks[1..], fault);
      NoFaultsLog(l.log, flashSize, blocks);
    }
  }

  lemma NoFaultsLog(log: seq<seq<U8>>, flashSize: nat, blocks: seq<Block>)
    requires blocks != []
    ensures log + Transfers(flashSize, blocks)
      == (log + [[CMD_WREN]] + [Bytes(flashSize, blocks[0])]) + Transfers(flashSize, blocks[1..])
  {
  }

  /** No command fails exactly when none of the odd transfers does. */
  lemma {:induction false} ClearExactly(blocks: seq<Block>, sent: nat, fault: nat -> bool)
    ensures Clear(blocks, sent, fault) <==> forall k: nat :: k < |blocks| ==> !fault(sent + 2 * k + 1)
    decreases |blocks|
  {
    if blocks != [] {
      ClearExactly(blocks[1..], sent + 2, fault);
      if Clear(blocks, sent, fault) {
        forall k: nat | k < |blocks| ensures !fault(sent + 2 * k + 1) {
          if k > 0 { assert !fault((sent + 2) + 2 * (k - 1) + 1); }
        }
      } else if !fault(sent + 1) {
        var k: nat :| k < |blocks| - 1 && fault((sent + 2) + 2 * k + 1);
        assert fault(sent + 2 * (k + 1) + 1);
      } else {
        assert fault(sent + 2 * 0 + 1);
      }
    }
  }

  /** A command on its own block size, delivered: with the latch set by itself or before, it
      erases its range and clears the latch; otherwise nothing happens. */
  lemma CommandDelivered(l: Link, flashSize: nat, b: Block, fault: nat -> bool)
    requires BLOCK64K < flashSize && b.address < 0x100_0000 && b.length in {SECTOR, BLOCK32K, BLOCK64K}
    requires b.address % b.length == 0 && !fault(l.sent + 1)
    ensures Erase1(l, flashSize, b, fault).chip ==
      if l.chip.wel || !fault(l.sent) then Chip(Erased(l.chip.mem, b.address, b.address + b.length), false) else l.chip
  {
    CommandErases(flashSize, l.chip, b);
    AddressBytes(b.address);
    assert l.chip.wel ==> Exec(l.chip, [CMD_WREN]) == l.chip;
  }

  /** The write-enables of the next count commands all arrive. */
  predicate Armed(count: int, sent: nat, fault: nat -> bool)
    decreases count
  {
    count <= 0 || (!fault(sent) && Armed(count - 1, sent + 2, fault))
  }

  lemma {:induction false} ArmedExactly(count: nat, sent: nat, fault: nat -> bool)
    ensures Armed(count, sent, fault) <==> forall k: nat :: k < count ==> !fault(sent + 2 * k)
  {
    if count > 0 {
      ArmedExactly(count - 1, sent + 2, fault);
      if Armed(count, sent, fault) {
        forall k: nat | k < count ensures !fault(sent + 2 * k) {
          if k > 0 { assert !fault((sent + 2) + 2 * (k - 1)); }
        }
      } else if !fault(sent) {
        var k: nat :| k < count - 1 && fault((sent + 2) + 2 * k);
        assert fault(sent + 2 * (k + 1));
      } else {
        assert fault(sent + 2 * 0);
      }
    }
  }

  /** What delivered commands do to the memory when each sits on its own block size: one with
      the latch set, by itself or before, erases its range and clears the latch. */
  function Effect(mem: seq<U8>, wel: bool, blocks: seq<Block>, sent: nat, fault: nat -> bool): (r: seq<U8>)
    ensures |r| == |mem|
    decreases |blocks|
  {
    if blocks == [] then mem
    else if wel || !fault(sent) then
      var b := blocks[0];
      Effect(Erased(mem, b.address, b.address + b.length), false, blocks[1..], sent + 2, fault)
    else Effect(mem, wel, blocks[1..], sent + 2, fault)
  }

  lemma EffectHead(mem: seq<U8>, wel: bool, b: Block, rest: seq<Block>, sent: nat, fault: nat -> bool)
    ensures Effect(mem, wel, [b] + rest, sent, fault) ==
      if wel || !fault(sent) then Effect(Erased(mem, b.address, b.address + b.length), false, rest, sent + 2, fault)
      else Effect(mem, wel, rest, sent + 2, fault)
  {
    assert ([b] + rest)[1..] == rest;
  }

  /** A command on a multiple of its own length. */
  predicate Own(b: Block) {
    b.address < 0x100_0000 && b.length in {SECTOR, BLOCK32K, BLOCK64K} && b.address % b.length == 0
  }

  /** The commands leave the memory mem. */
  ghost predicate Leaves(l: Link, flashSize: nat, blocks: seq<Block>, fault: nat -> bool, mem: seq<U8>) {
    forall all :: all == blocks ==> EraseAll(l, flashSize, all, fault).chip.mem == mem
  }

  /** The memory after delivered commands is their effect. */
  lemma {:induction false} EffectOf(l: Link, flashSize: nat, blocks: seq<Block>, fault: nat -> bool)
    requires BLOCK64K < flashSize && (forall b :: b in blocks ==> Own(b))
    requires Clear(blocks, l.sent, fault)
    ensures Leaves(l, flashSize, blocks, fault, Effect(l.chip.mem, l.chip.wel, blocks, l.sent, fault))
    decreases |blocks|
  {
    if blocks == [] {
      assert EraseAll(l, flashSize, [], fault) == l;
    } else {
      var m := Delivered(l, flashSize, blocks, fault, Effect(l.chip.mem, l.chip.wel, blocks, l.sent, fault));
      EffectOf(m, flashSize, blocks[1..], fault);
    }
  }

  lemma LeavesHead(l: Link, flashSize: nat, blocks: seq<Block>, fault: nat -> bool, m: Link, mem: seq<U8>)
    requires blocks != [] && !fault(l.sent + 1) && m == Erase1(l, flashSize, blocks[0], fault)
    requires Leaves(m, flashSize, blocks[1..], fault, mem)
    ensures Leaves(l, flashSize, blocks, fault, mem)
  {
    assert EraseAll(m, flashSize, blocks[1..], fault).chip.mem == mem;
  }

  /** The first command: what it leaves of the memory, and what is left to prove. */
  lemma Delivered(l: Link, flashSize: nat, blocks: seq<Block>, fault: nat -> bool, mem: seq<U8>) returns (m: Link)
    requires BLOCK64K < flashSize && blocks != [] && Own(blocks[0]) && !fault(l.sent + 1)
    ensures m.sent == l.sent + 2 && !m.chip.wel
    ensures m.chip.mem == if l.chip.wel || !fault(l.sent)
      then Erased(l.chip.mem, blocks[0].address, blocks[0].address + blocks[0].length) else l.chip.mem
    ensures Leaves(m, flashSize, blocks[1..], fault, mem) ==> Leaves(l, flashSize, blocks, fault, mem)
  {
    m := Erase1(l, flashSize, blocks[0], fault);
    CommandDelivered(l, flashSize, blocks[0], fault);
    if Leaves(m, flashSize, blocks[1..], fault, mem) {
      LeavesHead(l, flashSize, blocks, fault, m, mem);
    }
  }

  lemma {:induction false} BlocksOwn(address: nat, size: nat)
    requires Fits(address, size) && address + size <= 0x100_0000
    ensures forall b :: b in Blocks(address, size) ==> Own(b)
    decreases size
  {
    if size >= SECTOR {
      FitsNext(address, size);
      BlocksHead(address, size);
      BlocksOwn(address + NextLength(size), size - NextLength(size));
    }
  }

  lemma BlocksHead(address: nat, size: nat)
    requires size >= SECTOR
    ensures var n := NextLength(size); Blocks(address, size) == [Block(address, n)] + Blocks(address + n, size - n)
  {
  }

  /** A range of whole sectors is erased if the latch is set for the first command and every
      later write-enable arrives. */
  lemma {:induction false} ErasedDespite(mem: seq<U8>, wel: bool, address: nat, size: nat, sent: nat,
                                         fault: nat -> bool)
    requires size % SECTOR == 0 && (size >= SECTOR ==> wel || !fault(sent))
    requires Armed(|Blocks(address, size)| - 1, sent + 2, fault)
    ensures Effect(mem, wel, Blocks(address, size), sent, fault) == Erased(mem, address, address + size)
    decreases size
  {
    if size >= SECTOR {
      var n := NextLength(size);
      var rest := Blocks(address + n, size - n);
      SectorsLeft(size);
      BlocksHead(address, size);
      EffectHead(mem, wel, Block(address, n), rest, sent, fault);
      if size - n >= SECTOR { BlocksHead(address + n, size - n); }
      ErasedDespite(Erased(mem, address, address + n), false, address + n, size - n, sent + 2, fault);
      ErasedTwice(mem, address, address + n, address + size);
    } else {
      ErasedNone(mem, address);
    }
  }

  lemma ErasedNone(mem: seq<U8>, a: nat)
    ensures Erased(mem, a, a) == mem
  {
  }

  lemma ErasedTwice(mem: seq<U8>, a: nat, b: nat, c: nat)
    requires a <= b <= c
    ensures Erased(Erased(mem, a, b), b, c) == Erased(mem, a, c)
  {
  }

  lemma ErasedApart(mem: seq<U8>, lo: nat, hi: nat, a: nat)
    requires a < |mem| && !(lo <= a < hi)
    ensures Erased(mem, lo, hi)[a] == mem[a]
  {
  }

  /** Commands on a range never touch what lies before it. */
  lemma {:induction false} BeforeKept(mem: seq<U8>, wel: bool, address: nat, size: nat, sent: nat,
                                      fault: nat -> bool, a: nat)
    requires a < address && a < |mem|
    ensures Effect(mem, wel, Blocks(address, size), sent, fault)[a] == mem[a]
    decreases size
  {
    if size >= SECTOR {
      var n := NextLength(size);
      BlocksHead(address, size);
      EffectHead(mem, wel, Block(address, n), Blocks(address + n, size - n), sent, fault);
      ErasedApart(mem, address, address + n, a);
      BeforeKept(Erased(mem, address, address + n), false, address + n, size - n, sent + 2, fault, a);
      BeforeKept(mem, wel, address + n, size - n, sent + 2, fault, a);
    }
  }

  /** With the latch clear, a failing write-enable leaves its block unerased to the end. */
  lemma {:induction false} Missed(mem: seq<U8>, address: nat, size: nat, sent: nat, fault: nat -> bool) returns (a: nat)
    requires address + size <= |mem| && !Armed(|Blocks(address, size)|, sent, fault)
    ensures address <= a < address + size
    ensures Effect(mem, false, Blocks(address, size), sent, fault)[a] == mem[a]
    decreases size
  {
    var n := NextLength(size);
    BlocksHead(address, size);
    EffectHead(mem, false, Block(address, n), Blocks(address + n, size - n), sent, fault);
    if fault(sent) {
      a := address;
      BeforeKept(mem, false, address + n, size - n, sent + 2, fault, a);
    } else {
      a := Missed(Erased(mem, address, address + n), address + n, size - n, sent + 2, fault);
      ErasedApart(mem, address, address + n, a);
    }
  }

  /** The flash after an accepted request on a bus with faults. */
  function Remaining(flashSize: nat, mem: seq<U8>, offset: nat, size: nat, sent: nat,
                     log: seq<seq<U8>>, fault: nat -> bool): seq<U8> {
    EraseAll(Link(Chip(mem, true), sent, log), flashSize, Plan(flashSize, offset, size), fault).chip.mem
  }

  /** A block-aligned request inside the flash that reports success has erased its range, for
      every content, exactly when no write-enable after the first failed: the first is not
      needed, since the request is only accepted with the latch set. */
  lemma ErasedExactly(flashSize: nat, offset: nat, size: nat, sent: nat, log: seq<seq<U8>>, fault: nat -> bool)
    requires BLOCK64K < flashSize <= 0x100_0000
    requires offset % SECTOR == 0 && size % SECTOR == 0 && offset + size <= flashSize
    requires BlockAligned(flashSize, offset, size)
    requires Verdict(true, Clear(Plan(flashSize, offset, size), sent, fault)) == 0
    ensures (forall k: nat :: k < |Plan(flashSize, offset, size)| - 1 ==> !fault(sent + 2 + 2 * k)) <==>
      forall mem :: |mem| == flashSize ==>
        Remaining(flashSize, mem, offset, size, sent, log, fault) == Erased(mem, offset, offset + size)
  {
    var count := |Plan(flashSize, offset, size)| - 1;
    if count >= 0 { ArmedExactly(count, sent + 2, fault); }
    if Armed(count, sent + 2, fault) {
      forall mem: seq<U8> | |mem| == flashSize
        ensures Remaining(flashSize, mem, offset, size, sent, log, fault) == Erased(mem, offset, offset + size)
      {
        ErasedRange(flashSize, mem, offset, size, sent, log, fault);
      }
    } else {
      var blank := LeftUnerased(flashSize, offset, size, sent, log, fault);
    }
  }

  lemma LeftUnerased(flashSize: nat, offset: nat, size: nat, sent: nat, log: seq<seq<U8>>, fault: nat -> bool)
    returns (blank: seq<U8>)
    requires BLOCK64K < flashSize <= 0x100_0000
    requires offset % SECTOR == 0 && size % SECTOR == 0 && offset + size <= flashSize
    requires BlockAligned(flashSize, offset, size) && Clear(Plan(flashSize, offset, size), sent, fault)
    requires !Armed(|Plan(flashSize, offset, size)| - 1, sent + 2, fault)
    ensures |blank| == flashSize
    ensures Remaining(flashSize, blank, offset, size, sent, log, fault) != Erased(blank, offset, offset + size)
  {
    blank := seq(flashSize, _ => 0);
    MoreThanOne(flashSize, offset, size);
    var a := MissedAfterFirst(flashSize, blank, offset, size, sent, log, fault);
    assert Erased(blank, offset, offset + size)[a] == 0xFF;
    assert Remaining(flashSize, blank, offset, size, sent, log, fault)[a] == 0;
  }

  lemma MoreThanOne(flashSize: nat, offset: nat, size: nat)
    requires |Plan(flashSize, offset, size)| > 1
    ensures size != flashSize && size >= SECTOR && Plan(flashSize, offset, size) == Blocks(offset, size)
  {
  }

  lemma ErasedRange(flashSize: nat, mem: seq<U8>, offset: nat, size: nat, sent: nat, log: seq<seq<U8>>,
                    fault: nat -> bool)
    requires BLOCK64K < flashSize <= 0x100_0000 && |mem| == flashSize
    requires offset % SECTOR == 0 && size % SECTOR == 0 && offset + size <= flashSize
    requires BlockAligned(flashSize, offset, size) && Clear(Plan(flashSize, offset, size), sent, fault)
    requires Armed(|Plan(flashSize, offset, size)| - 1, sent + 2, fault)
    ensures Remaining(flashSize, mem, offset, size, sent, log, fault) == Erased(mem, offset, offset + size)
  {
    var l := Link(Chip(mem, true), sent, log);
    if size == flashSize {
      assert Plan(flashSize, offset, size) == [Block(offset, size)] + [];
      EraseAllHead(l, flashSize, Block(offset, size), [], fault);
    } else {
      AlignedFits(flashSize, offset, size);
      BlocksOwn(offset, size);
      EffectOf(l, flashSize, Blocks(offset, size), fault);
      ErasedDespite(mem, true, offset, size, sent, fault);
    }
  }

  lemma AlignedFits(flashSize: nat, offset: nat, size: nat)
    requires offset % SECTOR == 0 && size % SECTOR == 0 && BlockAligned(flashSize, offset, size) && size != flashSize
    ensures Fits(offset, size)
  {
  }

  lemma MissedLater(mem: seq<U8>, address: nat, size: nat, sent: nat, fault: nat -> bool) returns (a: nat)
    requires address + size <= |mem| && size >= SECTOR && !Armed(|Blocks(address, size)| - 1, sent + 2, fault)
    ensures address <= a < address + size && Effect(mem, true, Blocks(address, size), sent, fault)[a] == mem[a]
  {
    var n := NextLength(size);
    BlocksHead(address, size);
    EffectHead(mem, true, Block(address, n), Blocks(address + n, size - n), sent, fault);
    a := Missed(Erased(mem, address, address + n), address + n, size - n, sent + 2, fault);
    ErasedApart(mem, address, address + n, a);
  }

  /** The first command clears the latch, so a write-enable that is missed later counts. */
  lemma MissedAfterFirst(flashSize: nat, mem: seq<U8>, offset: nat, size: nat, sent: nat, log: seq<seq<U8>>,
                         fault: nat -> bool)
    returns (a: nat)
    requires BLOCK64K < flashSize <= 0x100_0000 && |mem| == flashSize
    requires offset % SECTOR == 0 && size % SECTOR == 0 && offset + size <= flashSize
    requires BlockAligned(flashSize, offset, size) && Clear(Plan(flashSize, offset, size), sent, fault)
    requires size != flashSize && size >= SECTOR && !Armed(|Blocks(offset, size)| - 1, sent + 2, fault)
    ensures offset <= a < offset + size
    ensures var r := Remaining(flashSize, mem, offset, size, sent, log, fault); |r| == |mem| && r[a] == mem[a]
  {
    AlignedFits(flashSize, offset, size);
    a := MissedLater(mem, offset, size, sent, fault);
    BlocksOwn(offset, size);
    EffectOf(Link(Chip(mem, true), sent, log), flashSize, Blocks(offset, size), fault);
  }

  /** Two sectors whose second write-enable fails: success is reported, and the second
      sector keeps its contents. */
  lemma SecondSectorKept(mem: seq<U8>)
    requires |mem| == 0x20_0000
    ensures var fault := (k: nat) => k == 2;
      && Verdict(true, Clear(Plan(0x20_0000, 0, 0x2000), 0, fault)) == 0
      && Remaining(0x20_0000, mem, 0, 0x2000, 0, [], fault) == Erased(mem, 0, 0x1000)
  {
    var fault := (k: nat) => k == 2;
    var l := Link(Chip(mem, true), 0, []);
    BlocksHead(0, 0x2000);
    BlocksHead(0x1000, 0x1000);
    assert Blocks(0x2000, 0) == [];
    EraseAllHead(l, 0x20_0000, Block(0, SECTOR), Blocks(0x1000, 0x1000), fault);
    CommandDelivered(l, 0x20_0000, Block(0, SECTOR), fault);
    var m := Erase1(l, 0x20_0000, Block(0, SECTOR), fault);
    EraseAllHead(m, 0x20_0000, Block(0x1000, SECTOR), [], fault);
    CommandDelivered(m, 0x20_0000, Block(0x1000, SECTOR), fault);
    assert Blocks(0x1000, 0x1000) == [Block(0x1000, SECTOR)] + [];
  }
}
