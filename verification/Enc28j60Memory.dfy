/** Buffer memory of the ENC28J60 and the driver's chunked transfers, receive framing and
    transmit layout (drivers/ethernet/eth_enc28j60.c). */
module Enc28j60Memory {
  import opened CTypes

  const RX_END := 0x0BFF
  const RX_SIZE := 0x0C00
  const TX_START := 0x0C00
  const MEMORY := 0x2000
  const MAX_BUFFER_LENGTH := 128

  /** The address i places after p in the receive ring. */
  function Ring(p: nat, i: nat): (q: nat)
    ensures q < RX_SIZE
  {
    (p + i) % RX_SIZE
  }

  /** bytes are what the receive ring holds from p on. */
  ghost predicate Holds(mem: seq<U8>, p: nat, bytes: seq<U8>)
    requires |mem| == MEMORY
  {
    forall i :: 0 <= i < |bytes| ==> bytes[i] == mem[Ring(p, i)]
  }

  lemma RingJoin(p: nat, i: nat, j: nat)
    ensures Ring(Ring(p, i), j) == Ring(p, i + j)
  {
  }

  lemma HoldsJoin(mem: seq<U8>, p: nat, a: seq<U8>, b: seq<U8>)
    requires |mem| == MEMORY && Holds(mem, p, a) && Holds(mem, Ring(p, |a|), b)
    ensures Holds(mem, p, a + b)
  {
    forall i | 0 <= i < |a + b| ensures (a + b)[i] == mem[Ring(p, i)] {
      if i >= |a| {
        RingJoin(p, |a|, i - |a|);
        assert b[i - |a|] == mem[Ring(Ring(p, |a|), i - |a|)];
      }
    }
  }

  lemma HoldsSnoc(mem: seq<U8>, p: nat, a: seq<U8>)
    requires |mem| == MEMORY && Holds(mem, p, a)
    ensures Holds(mem, p, a + [mem[Ring(p, |a|)]])
  {
  }

  lemma HoldsSame(mem: seq<U8>, p: nat, a: seq<U8>, b: seq<U8>)
    requires |mem| == MEMORY && Holds(mem, p, a) && Holds(mem, p, b) && |a| == |b|
    ensures a == b
  {
    forall i | 0 <= i < |a| ensures a[i] == b[i] {
      assert a[i] == mem[Ring(p, i)];
    }
  }

  /** The address i places after q in the whole memory. */
  function Around(q: nat, i: nat): (r: nat)
    ensures r < MEMORY
  {
    (q + i) % MEMORY
  }

  /** Memory after bytes were written from q on. */
  function Poke(mem: seq<U8>, q: nat, bytes: seq<U8>): (r: seq<U8>)
    requires |mem| == MEMORY
    ensures |r| == MEMORY
  {
    if bytes == [] then mem
    else
      var k := |bytes| - 1;
      Poke(mem, q, bytes[..k])[Around(q, k) := bytes[k]]
  }

  lemma AroundJoin(q: nat, i: nat, j: nat)
    ensures Around(Around(q, i), j) == Around(q, i + j)
  {
  }

  lemma PokeSnoc(mem: seq<U8>, q: nat, bytes: seq<U8>, x: U8)
    requires |mem| == MEMORY
    ensures Poke(mem, q, bytes + [x]) == Poke(mem, q, bytes)[Around(q, |bytes|) := x]
  {
    assert (bytes + [x])[..|bytes|] == bytes;
  }

  lemma {:induction false} PokeJoin(mem: seq<U8>, q: nat, a: seq<U8>, b: seq<U8>)
    requires |mem| == MEMORY
    ensures Poke(mem, q, a + b) == Poke(Poke(mem, q, a), Around(q, |a|), b)
    decreases |b|
  {
    if b == [] {
      assert a + b == a;
    } else {
      var k := |b| - 1;
      assert b == b[..k] + [b[k]] && a + b == (a + b[..k]) + [b[k]];
      PokeJoin(mem, q, a, b[..k]);
      PokeSnoc(mem, q, a + b[..k], b[k]);
      PokeSnoc(Poke(mem, q, a), Around(q, |a|), b[..k], b[k]);
      AroundJoin(q, |a|, k);
    }
  }

  /** Up to a memory full of bytes each lands in its place, and nothing else changes. */
  lemma {:induction false} PokeAt(mem: seq<U8>, q: nat, bytes: seq<U8>, j: nat)
    requires |mem| == MEMORY && q + |bytes| <= MEMORY && j < MEMORY
    ensures Poke(mem, q, bytes)[j] == if q <= j < q + |bytes| then bytes[j - q] else mem[j]
  {
    if bytes != [] {
      PokeAt(mem, q, bytes[..|bytes| - 1], j);
      assert Around(q, |bytes| - 1) == q + |bytes| - 1;
    }
  }

  /** A 16-bit value from its low and high bytes. */
  function Word(lo: U8, hi: U8): nat { lo + 256 * hi }

  class Chip {
    const mem: array<U8>
    var erdpt: nat
    var ewrpt: nat

    ghost predicate Valid()
      reads this
    {
      mem.Length == MEMORY && erdpt < RX_SIZE && ewrpt < MEMORY
    }

    /** The addresses as init_buffers leaves them. */
    constructor ()
      ensures Valid() && fresh(mem) && erdpt == 0 && ewrpt == TX_START
    {
      mem := new U8[MEMORY];
      erdpt, ewrpt := 0, TX_START;
    }

    method ReadByte() returns (b: U8)
      requires Valid()
      modifies this`erdpt
      ensures Valid() && b == mem[old(erdpt)] && erdpt == Ring(old(erdpt), 1)
    {
      b := mem[erdpt];
      erdpt := if erdpt == RX_END then 0 else erdpt + 1;
    }

    /** The read-buffer-memory command: n bytes follow the command byte in the SPI buffer. */
    method ReadBuffer(spi: array<U8>, n: nat)
      requires Valid() && spi != mem && 1 + n <= spi.Length
      modifies this`erdpt, spi
      ensures Valid() && erdpt == Ring(old(erdpt), n)
      ensures Holds(mem[..], old(erdpt), spi[1..1 + n])
    {
      ghost var m, p, got := mem[..], erdpt, [];
      var i := 0;
      while i < n
        invariant 0 <= i <= n && Valid() && erdpt == Ring(p, i) && mem[..] == m
        invariant Copied(spi[..], got, i) && Holds(m, p, got)
      {
        var b := ReadByte();
        HoldsSnoc(m, p, got);
        RingJoin(p, i, 1);
        CopiedSnoc(spi[..], got, i, b);
        spi[1 + i] := b;
        got := got + [b];
        i := i + 1;
      }
      assert got == spi[1..1 + n];
    }

    method WriteByte(b: U8)
      requires Valid()
      modifies this`ewrpt, mem
      ensures Valid() && mem[..] == old(mem[..])[old(ewrpt) := b] && ewrpt == Around(old(ewrpt), 1)
    {
      mem[ewrpt] := b;
      ewrpt := if ewrpt == MEMORY - 1 then 0 else ewrpt + 1;
    }

    /** The write-buffer-memory command. */
    method WriteBuffer(spi: array<U8>, n: nat)
      requires Valid() && spi != mem && 1 + n <= spi.Length
      modifies this`ewrpt, mem
      ensures Valid() && ewrpt == Around(old(ewrpt), n)
      ensures mem[..] == Poke(old(mem[..]), old(ewrpt), spi[1..1 + n])
    {
      ghost var m, q, bytes := mem[..], ewrpt, spi[1..1 + n];
      var i := 0;
      while i < n
        invariant 0 <= i <= n && Valid() && ewrpt == Around(q, i) && spi[1..1 + n] == bytes
        invariant mem[..] == Poke(m, q, bytes[..i])
      {
        PokeSnoc(m, q, bytes[..i], bytes[i]);
        AroundJoin(q, i, 1);
        assert bytes[..i] + [bytes[i]] == bytes[..i + 1];
        WriteByte(spi[1 + i]);
        i := i + 1;
      }
      assert bytes[..n] == bytes;
    }
  }

  /** got stands in the SPI buffer behind the command byte. */
  ghost predicate Copied(spi: seq<U8>, got: seq<U8>, i: nat) {
    |got| == i && 1 + i <= |spi| && forall j :: 0 <= j < i ==> spi[1 + j] == got[j]
  }

  lemma CopiedSnoc(spi: seq<U8>, got: seq<U8>, i: nat, b: U8)
    requires Copied(spi, got, i) && 1 + i < |spi|
    ensures Copied(spi[1 + i := b], got + [b], i + 1)
  {
  }

  class Driver {
    const chip: Chip
    const memBuf: array<U8>

    ghost predicate Valid()
      reads this, chip
    {
      chip.Valid() && memBuf != chip.mem && memBuf.Length == MAX_BUFFER_LENGTH + 1
    }

    constructor (device: Chip)
      requires device.Valid()
      ensures Valid() && chip == device && fresh(memBuf)
    {
      chip := device;
      memBuf := new U8[MAX_BUFFER_LENGTH + 1];
    }

    /** One segment into the destination. */
    method ReadSegment(dst: array<U8>, at: nat, n: nat)
      requires Valid() && dst != memBuf && dst != chip.mem && n <= MAX_BUFFER_LENGTH && at + n <= dst.Length
      modifies chip`erdpt, memBuf, dst
      ensures Valid() && chip.erdpt == Ring(old(chip.erdpt), n)
      ensures Holds(chip.mem[..], old(chip.erdpt), dst[at..at + n])
      ensures forall k :: 0 <= k < dst.Length && !(at <= k < at + n) ==> dst[k] == old(dst[k])
    {
      chip.ReadBuffer(memBuf, n);
      forall i | 0 <= i < n { dst[at + i] := memBuf[1 + i]; }
      assert dst[at..at + n] == memBuf[1..1 + n];
    }

    /** eth_enc28j60_read_mem: whole segments, then the rest. */
    method ReadMem(dst: array<U8>, len: nat)
      requires Valid() && dst != memBuf && dst != chip.mem && len <= dst.Length
      modifies chip`erdpt, memBuf, dst
      ensures Valid() && chip.erdpt == Ring(old(chip.erdpt), len)
      ensures Holds(chip.mem[..], old(chip.erdpt), dst[..len])
      ensures forall k :: len <= k < dst.Length ==> dst[k] == old(dst[k])
    {
      var segments := len / MAX_BUFFER_LENGTH;
      var remaining := len - MAX_BUFFER_LENGTH * segments;
      var i, index := 0, 0;
      while i < segments
        invariant 0 <= i <= segments && index == MAX_BUFFER_LENGTH * i && Valid()
        invariant chip.erdpt == Ring(old(chip.erdpt), index)
        invariant Holds(chip.mem[..], old(chip.erdpt), dst[..index])
        invariant forall k :: index <= k < dst.Length ==> dst[k] == old(dst[k])
      {
        ReadNext(dst, index, MAX_BUFFER_LENGTH, old(chip.erdpt));
        i, index := i + 1, index + MAX_BUFFER_LENGTH;
      }
      if remaining > 0 {
        ReadNext(dst, index, remaining, old(chip.erdpt));
      }
    }

    /** A segment after those already read. */
    method ReadNext(dst: array<U8>, at: nat, n: nat, ghost start: nat)
      requires Valid() && dst != memBuf && dst != chip.mem && n <= MAX_BUFFER_LENGTH && at + n <= dst.Length
      requires chip.erdpt == Ring(start, at) && Holds(chip.mem[..], start, dst[..at])
      modifies chip`erdpt, memBuf, dst
      ensures Valid() && chip.erdpt == Ring(start, at + n)
      ensures Holds(chip.mem[..], start, dst[..at + n])
      ensures forall k :: at + n <= k < dst.Length ==> dst[k] == old(dst[k])
    {
      ReadSegment(dst, at, n);
      RingJoin(start, at, n);
      HoldsJoin(chip.mem[..], start, dst[..at], dst[at..at + n]);
      assert dst[..at] + dst[at..at + n] == dst[..at + n];
    }

    /** One segment out of the source. */
    method WriteSegment(src: seq<U8>, at: nat, n: nat)
      requires Valid() && n <= MAX_BUFFER_LENGTH && at + n <= |src|
      modifies chip`ewrpt, chip.mem, memBuf
      ensures Valid() && chip.ewrpt == Around(old(chip.ewrpt), n)
      ensures chip.mem[..] == Poke(old(chip.mem[..]), old(chip.ewrpt), src[at..at + n])
    {
      forall i | 0 <= i < n { memBuf[1 + i] := src[at + i]; }
      assert memBuf[1..1 + n] == src[at..at + n] && chip.mem[..] == old(chip.mem[..]);
      chip.WriteBuffer(memBuf, n);
    }

    /** A segment after those already written. */
    method WriteNext(src: seq<U8>, at: nat, n: nat, ghost was: seq<U8>, ghost start: nat)
      requires Valid() && n <= MAX_BUFFER_LENGTH && at + n <= |src| && |was| == MEMORY
      requires chip.ewrpt == Around(start, at) && chip.mem[..] == Poke(was, start, src[..at])
      modifies chip`ewrpt, chip.mem, memBuf
      ensures Valid() && chip.ewrpt == Around(start, at + n) && chip.mem[..] == Poke(was, start, src[..at + n])
    {
      AroundJoin(start, at, n);
      PokeJoin(was, start, src[..at], src[at..at + n]);
      assert src[..at] + src[at..at + n] == src[..at + n];
      WriteSegment(src, at, n);
    }

    /** eth_enc28j60_write_mem. */
    method WriteMem(src: seq<U8>)
      requires Valid()
      modifies chip`ewrpt, chip.mem, memBuf
      ensures Valid() && chip.ewrpt == Around(old(chip.ewrpt), |src|)
      ensures chip.mem[..] == Poke(old(chip.mem[..]), old(chip.ewrpt), src)
    {
      var segments := |src| / MAX_BUFFER_LENGTH;
      var remaining := |src| - MAX_BUFFER_LENGTH * segments;
      var i, index := 0, 0;
      while i < segments
        invariant 0 <= i <= segments && index == MAX_BUFFER_LENGTH * i && Valid()
        invariant chip.ewrpt == Around(old(chip.ewrpt), index)
        invariant chip.mem[..] == Poke(old(chip.mem[..]), old(chip.ewrpt), src[..index])
      {
        WriteNext(src, index, MAX_BUFFER_LENGTH, old(chip.mem[..]), old(chip.ewrpt));
        i, index := i + 1, index + MAX_BUFFER_LENGTH;
      }
      if remaining > 0 {
        WriteNext(src, index, remaining, old(chip.mem[..]), old(chip.ewrpt));
      }
      assert src[..|src|] == src;
    }
  }
}
