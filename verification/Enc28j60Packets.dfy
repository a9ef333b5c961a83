/** The packets of the ENC28J60 driver: eth_enc28j60_rx reads them out of the receive ring,
    eth_enc28j60_tx lays them out for transmission. */
module Enc28j60Packets {
  import opened CTypes
  import opened Enc28j60Memory

  const HEADER := 6

  // ---------------------------------------------------------------- receiving

  /** The ERXRDPT value for a next-packet address: even values are avoided. */
  function Freed(next: nat): nat {
    if next == 0 then RX_END else if next % 2 == 0 then next - 1 else next
  }

  /** For every even address in the ring it is odd, in the ring, and one place before it:
      everything up to the next packet is freed. */
  lemma FreedBefore(next: nat)
    requires next < RX_SIZE && next % 2 == 0
    ensures Freed(next) % 2 == 1 && Freed(next) <= RX_END && Ring(Freed(next), 1) == next
  {
  }

  function Concat(parts: seq<seq<U8>>): seq<U8> {
    if parts == [] then [] else Concat(parts[..|parts| - 1]) + parts[|parts| - 1]
  }

  function Sum(rooms: seq<nat>): nat {
    if rooms == [] then 0 else Sum(rooms[..|rooms| - 1]) + rooms[|rooms| - 1]
  }

  lemma ConcatSnoc(parts: seq<seq<U8>>, part: seq<U8>)
    ensures Concat(parts + [part]) == Concat(parts) + part
  {
    assert (parts + [part])[..|parts|] == parts;
  }

  lemma {:induction false} SumPrefix(rooms: seq<nat>, k: nat)
    requires k <= |rooms|
    ensures Sum(rooms[..k]) <= Sum(rooms)
  {
    if k < |rooms| {
      SumPrefix(rooms[..|rooms| - 1], k);
      assert rooms[..|rooms| - 1][..k] == rooms[..k];
    } else {
      assert rooms[..k] == rooms;
    }
  }

  /** The space a frame takes in the ring: header, bytes, padding to an even length. */
  function Span(frame: seq<U8>): nat { HEADER + |frame| + |frame| % 2 }

  /** What the device stores at p for a frame: the address of the next packet, the length
      in the status vector, low byte first, and the bytes. */
  ghost predicate Packet(mem: seq<U8>, p: nat, frame: seq<U8>)
    requires |mem| == MEMORY
  {
    && p % 2 == 0
    && mem[Ring(p, 0)] == Ring(p, Span(frame)) % 256 && mem[Ring(p, 1)] == Ring(p, Span(frame)) / 256
    && mem[Ring(p, 2)] == |frame| % 256 && mem[Ring(p, 3)] == |frame| / 256
    && Holds(mem, Ring(p, HEADER), frame)
  }

  function NextAt(mem: seq<U8>, p: nat): nat
    requires |mem| == MEMORY
  {
    Word(mem[Ring(p, 0)], mem[Ring(p, 1)])
  }

  function LengthAt(mem: seq<U8>, p: nat): nat
    requires |mem| == MEMORY
  {
    Word(mem[Ring(p, 2)], mem[Ring(p, 3)])
  }

  function Spans(frames: seq<seq<U8>>): nat {
    if frames == [] then 0 else Spans(frames[..|frames| - 1]) + Span(frames[|frames| - 1])
  }

  /** In round k the device's memory is memory(k); whatever has arrived since the round
      before, it still holds the k-th frame behind those already read. */
  ghost predicate Arriving(memory: nat -> seq<U8>, p: nat, frames: seq<seq<U8>>) {
    forall k :: 0 <= k < |frames| ==>
      |memory(k)| == MEMORY && Packet(memory(k), Ring(p, Spans(frames[..k])), frames[k])
  }

  /** The packet counter after round k, when stored(k) packets have been stored in all, is
      zero first in the round of the last frame. */
  ghost predicate Counts(stored: nat -> nat, n: nat) {
    forall k: nat :: k < n ==> if k + 1 == n then stored(k) == n else stored(k) > k + 1
  }

  class Receiver {
    const driver: Driver

    ghost predicate Valid()
      reads this, driver, driver.chip
    {
      driver.Valid()
    }

    constructor (d: Driver)
      requires d.Valid()
      ensures Valid() && driver == d
    {
      driver := d;
    }

    /** The next-packet address, then the status vector with the length in front. */
    method ReadHeader() returns (next: nat, length: nat)
      requires Valid()
      modifies driver.chip`erdpt, driver.memBuf
      ensures Valid() && driver.chip.erdpt == Ring(old(driver.chip.erdpt), HEADER)
      ensures next == NextAt(driver.chip.mem[..], old(driver.chip.erdpt))
      ensures length == LengthAt(driver.chip.mem[..], old(driver.chip.erdpt))
    {
      ghost var m, p := driver.chip.mem[..], driver.chip.erdpt;
      var np := new U8[2];
      driver.ReadMem(np, 2);
      next := Word(np[0], np[1]);
      assert np[..2][0] == m[Ring(p, 0)] && np[..2][1] == m[Ring(p, 1)];
      var rsv := new U8[4];
      driver.ReadMem(rsv, 4);
      length := Word(rsv[0], rsv[1]);
      RingJoin(p, 2, 0);
      RingJoin(p, 2, 1);
      RingJoin(p, 2, 4);
      assert rsv[..4][0] == m[Ring(Ring(p, 2), 0)] && rsv[..4][1] == m[Ring(Ring(p, 2), 1)];
    }

    /** One fragment of at most room bytes after those already read. */
    method ReadFragment(room: nat, left: nat, ghost start: nat, ghost done: seq<U8>) returns (part: seq<U8>)
      requires Valid() && driver.chip.erdpt == Ring(start, |done|) && Holds(driver.chip.mem[..], start, done)
      modifies driver.chip`erdpt, driver.memBuf
      ensures Valid() && |part| == if left > room then room else left
      ensures driver.chip.erdpt == Ring(start, |done + part|) && Holds(driver.chip.mem[..], start, done + part)
    {
      var data := new U8[room];
      var n := if left > room then room else left;
      driver.ReadMem(data, n);
      part := data[..n];
      RingJoin(start, |done|, n);
      HoldsJoin(driver.chip.mem[..], start, done, part);
    }

    /** The fragment loop; rooms are the tailrooms of the fragments that can be had. It
        completes exactly when there is one and together they have room for the frame. */
    method ReadFragments(length: nat, rooms: seq<nat>) returns (parts: seq<seq<U8>>, ok: bool)
      requires Valid()
      modifies driver.chip`erdpt, driver.memBuf
      ensures Valid() && driver.chip.erdpt == Ring(old(driver.chip.erdpt), |Concat(parts)|)
      ensures Holds(driver.chip.mem[..], old(driver.chip.erdpt), Concat(parts))
      ensures ok <==> rooms != [] && Sum(rooms) >= length
      ensures |Concat(parts)| <= length && (|Concat(parts)| == length <==> ok || length == 0)
      ensures |parts| <= |rooms| && forall i :: 0 <= i < |parts| ==> |parts[i]| <= rooms[i]
    {
      ghost var start := driver.chip.erdpt;
      var left, k := length, 0;
      parts, ok := [], false;
      assert rooms[..0] == [];
      while !ok && k < |rooms|
        invariant 0 <= k <= |rooms| && |parts| == k && Valid()
        invariant driver.chip.erdpt == Ring(start, |Concat(parts)|) && Holds(driver.chip.mem[..], start, Concat(parts))
        invariant |Concat(parts)| + left == length && left >= 0
        invariant ok <==> k > 0 && left == 0
        invariant if ok then Sum(rooms[..k]) >= length else |Concat(parts)| == Sum(rooms[..k])
        invariant forall i :: 0 <= i < k ==> |parts[i]| <= rooms[i]
        decreases |rooms| - k, !ok
      {
        var part := ReadFragment(rooms[k], left, start, Concat(parts));
        ConcatSnoc(parts, part);
        assert rooms[..k + 1][..k] == rooms[..k];
        parts := parts + [part];
        left := left - |part|;
        k := k + 1;
        ok := left == 0;
      }
      SumPrefix(rooms, k);
      assert rooms[..|rooms|] == rooms;
    }

    /** The fragments and the padding byte after an odd number of bytes; has tells whether
        the packet's own buffer could be had. */
    method ReadFrame(length: nat, has: bool, rooms: seq<nat>) returns (parts: seq<seq<U8>>, ok: bool)
      requires Valid()
      modifies driver.chip`erdpt, driver.memBuf
      ensures Valid() && Holds(driver.chip.mem[..], old(driver.chip.erdpt), Concat(parts))
      ensures ok <==> has && rooms != [] && Sum(rooms) >= length
      ensures |Concat(parts)| <= length && (|Concat(parts)| == length <==> ok || length == 0)
      ensures driver.chip.erdpt == Ring(old(driver.chip.erdpt), |Concat(parts)| + if ok then length % 2 else 0)
      ensures |parts| <= |rooms| && forall i :: 0 <= i < |parts| ==> |parts[i]| <= rooms[i]
    {
      if !has {
        return [], false;
      }
      parts, ok := ReadFragments(length, rooms);
      if ok && length % 2 == 1 {
        RingJoin(old(driver.chip.erdpt), length, 1);
        var pad := new U8[1];
        driver.ReadMem(pad, 1);
      }
    }

    /** One round of the packet loop. freed is what is written to ERXRDPT. After a stored
        packet the read pointer is at the next one exactly when its buffers could be had or
        its frame was empty: the early exit leaves the rest of the packet unread. */
    method ReceivePacket(has: bool, rooms: seq<nat>) returns (parts: seq<seq<U8>>, ok: bool, freed: nat)
      requires Valid()
      modifies driver.chip`erdpt, driver.memBuf
      ensures Valid() && freed == Freed(NextAt(driver.chip.mem[..], old(driver.chip.erdpt)))
      ensures var length := LengthAt(driver.chip.mem[..], old(driver.chip.erdpt));
        && (ok <==> has && rooms != [] && Sum(rooms) >= length)
        && |Concat(parts)| <= length && (|Concat(parts)| == length <==> ok || length == 0)
        && driver.chip.erdpt == Ring(old(driver.chip.erdpt), Consumed(length, |Concat(parts)|, ok))
      ensures Holds(driver.chip.mem[..], Ring(old(driver.chip.erdpt), HEADER), Concat(parts))
      ensures forall frame :: Packet(driver.chip.mem[..], old(driver.chip.erdpt), frame) && Span(frame) <= RX_SIZE ==>
        (driver.chip.erdpt == NextAt(driver.chip.mem[..], old(driver.chip.erdpt)) <==>
          (has && rooms != [] && Sum(rooms) >= |frame|) || frame == [])
      ensures |parts| <= |rooms| && forall i :: 0 <= i < |parts| ==> |parts[i]| <= rooms[i]
    {
      ghost var p := driver.chip.erdpt;
      var next, length := ReadHeader();
      freed := Freed(next);
      parts, ok := ReadFrame(length, has, rooms);
      RingJoin(p, HEADER, |Concat(parts)| + if ok then length % 2 else 0);
      forall frame | Packet(driver.chip.mem[..], p, frame) && Span(frame) <= RX_SIZE
        ensures driver.chip.erdpt == Ring(p, Span(frame)) <==> ok || frame == []
      {
        AlignedExactly(p, frame, |Concat(parts)|, ok);
      }
    }

    /** A stored packet that gets its buffers is delivered whole, and the read pointer is
        then at the next packet, just behind what is freed. */
    method ReceiveNext(rooms: seq<nat>, ghost frame: seq<U8>) returns (got: seq<U8>, freed: nat)
      requires Valid() && Packet(driver.chip.mem[..], driver.chip.erdpt, frame)
      requires rooms != [] && Sum(rooms) >= |frame|
      modifies driver.chip`erdpt, driver.memBuf
      ensures Valid() && got == frame && driver.chip.erdpt == Ring(old(driver.chip.erdpt), Span(frame))
      ensures freed % 2 == 1 && freed <= RX_END && Ring(freed, 1) == driver.chip.erdpt
    {
      ghost var q := driver.chip.erdpt;
      var parts, ok;
      parts, ok, freed := ReceivePacket(true, rooms);
      FrameRead(driver.chip.mem[..], q, frame, parts, freed);
      got := Concat(parts);
    }

    /** What the device does on its own. */
    method DeviceWrites(memory: seq<U8>)
      requires Valid() && |memory| == MEMORY
      modifies driver.chip.mem
      ensures driver.chip.mem[..] == memory
    {
      forall i | 0 <= i < MEMORY { driver.chip.mem[i] := memory[i]; }
    }

    /** The packet loop, while further packets may arrive, as long as every one gets its
        buffers: it delivers exactly the frames stored, in order, leaves the read address at
        the end of the last, and frees the ring up to there. */
    method ReceiveAll(rooms: nat -> seq<nat>, memory: nat -> seq<U8>, stored: nat -> nat, ghost frames: seq<seq<U8>>)
      returns (delivered: seq<seq<U8>>, freed: nat)
      requires Valid() && frames != [] && Arriving(memory, driver.chip.erdpt, frames) && Counts(stored, |frames|)
      requires forall k :: 0 <= k < |frames| ==> rooms(k) != [] && Sum(rooms(k)) >= |frames[k]|
      modifies driver.chip`erdpt, driver.chip.mem, driver.memBuf
      ensures Valid() && delivered == frames
      ensures driver.chip.erdpt == Ring(old(driver.chip.erdpt), Spans(frames)) && Ring(freed, 1) == driver.chip.erdpt
      ensures freed % 2 == 1 && freed <= RX_END
    {
      ghost var p := driver.chip.erdpt;
      delivered, freed := [], 1;
      var counter := 1;
      SpansStart(p, frames);
      while counter > 0
        invariant 0 <= counter && |delivered| <= |frames| && Valid() && delivered == frames[..|delivered|]
        invariant counter == 0 <==> |delivered| == |frames|
        invariant driver.chip.erdpt == Ring(p, Spans(frames[..|delivered|]))
        invariant delivered != [] ==> Ring(freed, 1) == driver.chip.erdpt && freed % 2 == 1 && freed <= RX_END
        decreases |frames| - |delivered|
      {
        ghost var k := |delivered|;
        SpansNext(p, frames, k);
        DeviceWrites(memory(|delivered|));
        var got;
        got, freed := ReceiveNext(rooms(|delivered|), frames[k]);
        counter := stored(|delivered|) - (|delivered| + 1);
        delivered := delivered + [got];
      }
      assert frames[..|frames|] == frames;
    }
  }

  lemma SpansStart(p: nat, frames: seq<seq<U8>>)
    requires p < RX_SIZE
    ensures Ring(p, Spans(frames[..0])) == p
  {
    assert Spans(frames[..0]) == 0;
  }

  lemma SpansNext(p: nat, frames: seq<seq<U8>>, k: nat)
    requires k < |frames|
    ensures Ring(Ring(p, Spans(frames[..k])), Span(frames[k])) == Ring(p, Spans(frames[..k + 1]))
    ensures frames[..k + 1] == frames[..k] + [frames[k]]
  {
    assert frames[..k + 1][..k] == frames[..k];
    RingJoin(p, Spans(frames[..k]), Span(frames[k]));
  }

  /** The bytes a round of the packet loop reads. */
  function Consumed(length: nat, read: nat, ok: bool): nat { HEADER + read + if ok then length % 2 else 0 }

  /** What a complete round has read of a stored packet is its frame, and what it frees ends
      just before the next one. */
  lemma FrameRead(mem: seq<U8>, q: nat, frame: seq<U8>, parts: seq<seq<U8>>, freed: nat)
    requires |mem| == MEMORY && Packet(mem, q, frame) && freed == Freed(NextAt(mem, q))
    requires |Concat(parts)| == |frame| && Holds(mem, Ring(q, HEADER), Concat(parts))
    ensures Concat(parts) == frame
    ensures freed % 2 == 1 && freed <= RX_END && Ring(freed, 1) == Ring(q, Span(frame))
  {
    HoldsSame(mem, Ring(q, HEADER), frame, Concat(parts));
    SpanEven(q, frame);
    FreedBefore(Ring(q, Span(frame)));
  }

  lemma SpanEven(q: nat, frame: seq<U8>)
    requires q % 2 == 0
    ensures Ring(q, Span(frame)) % 2 == 0
  {
    assert Span(frame) % 2 == 0;
  }

  /** The bytes read reach the next packet exactly when the frame was read or is empty. */
  lemma AlignedExactly(p: nat, frame: seq<U8>, read: nat, ok: bool)
    requires Span(frame) <= RX_SIZE && read <= |frame| && (read == |frame| <==> ok || frame == [])
    ensures Ring(p, Consumed(|frame|, read, ok)) == Ring(p, Span(frame)) <==> ok || frame == []
  {
  }

  /** A stored frame of two bytes whose buffer is refused: the next read is not at the next
      packet. */
  lemma RefusedMisaligned()
    ensures var mem: seq<U8> := seq(MEMORY, i => if i == 0 then 8 else if i == 2 then 2 else 0);
      && Packet(mem, 0, [0, 0])
      && Ring(0, Consumed(LengthAt(mem, 0), 0, false)) != NextAt(mem, 0)
  {
    var mem: seq<U8> := seq(MEMORY, i => if i == 0 then 8 else if i == 2 then 2 else 0);
    assert mem[Ring(0, 0)] == 8 && mem[Ring(0, 1)] == 0 && mem[Ring(0, 2)] == 2 && mem[Ring(0, 3)] == 0;
    assert Ring(0, HEADER) == 6 && Ring(6, 0) == 6 && Ring(6, 1) == 7;
  }

  // ---------------------------------------------------------------- transmitting

  /** The bytes of a packet: the link-layer header in front of the first fragment. */
  function Bytes(ll: seq<U8>, frags: seq<seq<U8>>): seq<U8> { if frags == [] then [] else ll + Concat(frags) }

  class Transmitter {
    const driver: Driver
    var etxst: nat
    var etxnd: nat

    ghost predicate Valid()
      reads this, driver, driver.chip
    {
      driver.Valid()
    }

    constructor (d: Driver)
      requires d.Valid()
      ensures Valid() && driver == d && etxst == 0x0C00 && etxnd == 0x11FF
    {
      driver := d;
      etxst, etxnd := TX_START, 0x11FF;
    }

    /** A write behind those already made. */
    method WriteMore(data: seq<U8>, ghost m: seq<U8>, ghost q: nat, ghost done: seq<U8>)
      requires Valid() && |m| == MEMORY
      requires driver.chip.ewrpt == Around(q, |done|) && driver.chip.mem[..] == Poke(m, q, done)
      modifies driver.chip`ewrpt, driver.chip.mem, driver.memBuf
      ensures Valid() && driver.chip.ewrpt == Around(q, |done + data|) && driver.chip.mem[..] == Poke(m, q, done + data)
    {
      PokeJoin(m, q, done, data);
      AroundJoin(q, |done|, |data|);
      driver.WriteMem(data);
    }

    /** The device holds the control byte and the first k fragments. */
    ghost predicate Laying(ll: seq<U8>, frags: seq<seq<U8>>, k: nat, m: seq<U8>, q: nat)
      requires k <= |frags| && |m| == MEMORY
      reads this, driver, driver.chip, driver.chip.mem
    {
      && Valid()
      && driver.chip.ewrpt == Around(q, |Sent(ll, frags, k)|)
      && driver.chip.mem[..] == Poke(m, q, Sent(ll, frags, k))
    }

    method WriteFragment(ll: seq<U8>, frags: seq<seq<U8>>, k: nat, first: bool, ghost m: seq<U8>, ghost q: nat)
      requires k < |frags| && first == (k == 0) && |m| == MEMORY && Laying(ll, frags, k, m, q)
      modifies driver.chip`ewrpt, driver.chip.mem, driver.memBuf
      ensures Laying(ll, frags, k + 1, m, q)
    {
      SentNext(ll, frags, k);
      WriteMore(if first then ll + frags[k] else frags[k], m, q, Sent(ll, frags, k));
    }

    /** The fragment loop, behind the control byte. */
    method WriteFragments(ll: seq<U8>, frags: seq<seq<U8>>, ghost m: seq<U8>, ghost q: nat)
      requires |m| == MEMORY && Laying(ll, frags, 0, m, q)
      modifies driver.chip`ewrpt, driver.chip.mem, driver.memBuf
      ensures Laying(ll, frags, |frags|, m, q)
    {
      var k, first := 0, true;
      while k < |frags|
        invariant 0 <= k <= |frags| && first == (k == 0) && Laying(ll, frags, k, m, q)
      {
        WriteFragment(ll, frags, k, first, m, q);
        first := false;
        k := k + 1;
      }
    }

    /** eth_enc28j60_tx up to the transmit request, with the length its caller passes: a
        control byte at the start of the transmit area, the packet behind it. */
    method Transmit(ll: seq<U8>, frags: seq<seq<U8>>)
      requires Valid() && |ll| + |Concat(frags)| < 0x1_0000
      modifies this, driver.chip`ewrpt, driver.chip.mem, driver.memBuf
      ensures Valid() && etxst == TX_START
      ensures etxnd == (TX_START + |ll| + |Concat(frags)|) % 0x1_0000
      ensures driver.chip.mem[..] == Poke(old(driver.chip.mem[..]), TX_START, [0] + Bytes(ll, frags))
      ensures driver.chip.ewrpt == Around(TX_START, 1 + |Bytes(ll, frags)|)
    {
      driver.chip.ewrpt := TX_START;
      etxst := TX_START;
      driver.WriteMem([0]);
      assert Sent(ll, frags, 0) == [0] && Sent(ll, frags, |frags|) == [0] + Bytes(ll, frags) by {
        assert frags[..0] == [] && frags[..|frags|] == frags;
      }
      WriteFragments(ll, frags, old(driver.chip.mem[..]), TX_START);
      etxnd := (TX_START + |ll| + |Concat(frags)|) % 0x1_0000;
    }
  }

  /** The control byte and the first k fragments. */
  function Sent(ll: seq<U8>, frags: seq<seq<U8>>, k: nat): seq<U8>
    requires k <= |frags|
  {
    [0] + Bytes(ll, frags[..k])
  }

  lemma SentNext(ll: seq<U8>, frags: seq<seq<U8>>, k: nat)
    requires k < |frags|
    ensures Sent(ll, frags, k + 1) == Sent(ll, frags, k) + if k == 0 then ll + frags[k] else frags[k]
  {
    assert frags[..k + 1] == frags[..k] + [frags[k]];
    ConcatSnoc(frags[..k], frags[k]);
  }

  /** The end address is that of the last byte written exactly when there is a fragment to
      carry the link-layer header and the sum stays inside the memory (or wraps back into
      it). */
  lemma EndIsLast(ll: seq<U8>, frags: seq<seq<U8>>)
    requires |ll| + |Concat(frags)| < 0x1_0000
    ensures var end := (TX_START + |ll| + |Concat(frags)|) % 0x1_0000;
      (end == Around(TX_START, |Bytes(ll, frags)|)) <==> (end < MEMORY && (frags != [] || |ll| % MEMORY == 0))
  {
    var n := |ll| + |Concat(frags)|;
    if frags != [] {
      assert |Bytes(ll, frags)| == n;
      SameEnd(n);
    } else {
      assert Bytes(ll, frags) == [] && n == |ll|;
      EmptyEnd(n);
    }
  }

  lemma SameEnd(n: nat)
    requires n < 0x1_0000
    ensures (TX_START + n) % 0x1_0000 == Around(TX_START, n) <==> (TX_START + n) % 0x1_0000 < MEMORY
  {
    var q := (TX_START + n) / 0x1_0000;
    assert TX_START + n == 0x1_0000 * q + (TX_START + n) % 0x1_0000;
    assert Around(TX_START, n) == (TX_START + n) % 0x1_0000 % MEMORY;
  }

  lemma EmptyEnd(n: nat)
    requires n < 0x1_0000
    ensures (TX_START + n) % 0x1_0000 == Around(TX_START, 0) <==> (TX_START + n) % 0x1_0000 < MEMORY && n % MEMORY == 0
  {
  }

  /** A packet that fits: its bytes stand between the control byte and the end address, and
      nothing else changes. */
  lemma PacketLaidOut(mem: seq<U8>, ll: seq<U8>, frags: seq<seq<U8>>, j: nat)
    requires |mem| == MEMORY && frags != [] && TX_START + |ll| + |Concat(frags)| < MEMORY && j < MEMORY
    ensures Poke(mem, TX_START, [0] + Bytes(ll, frags))[j] ==
      if j == TX_START then 0
      else if TX_START < j <= TX_START + |ll| + |Concat(frags)| then (ll + Concat(frags))[j - TX_START - 1]
      else mem[j]
  {
    PokeAt(mem, TX_START, [0] + Bytes(ll, frags), j);
  }
}
