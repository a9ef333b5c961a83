/** The ring buffer of misc/ring_buffer.c and include/misc/ring_buffer.h. */
module RingBuffer {
  import opened CTypes
  import opened RingLayout
  import Bits

  /** sys_ring_buf_space_get: free words; one word always stays empty. */
  function Space(size: nat, head: nat, tail: nat): (s: nat)
    requires head < size && tail < size
    ensures s + Used(size, head, tail) == size - 1
  {
    if head == tail then size - 1
    else if tail < head then head - tail - 1
    else size - tail + head - 1
  }

  /** The same function when each of its three uses of buf->head is a separate load
      returning h1, h2 and h3, with the int result converted to uint32_t by the caller. */
  function TornSpace(size: nat, tail: nat, h1: nat, h2: nat, h3: nat): int {
    if h1 == tail then size - 1
    else if tail < h2 then (h3 - tail - 1) % 0x1_0000_0000
    else size - tail + h3 - 1
  }

  /** While a reader moves the head forward through the used words (h1, then h2, then h3),
      three separate loads agree with one snapshot exactly when the head does not wrap
      between the second and the third load; when it does, the result admits any item. */
  lemma TornSpaceExact(size: nat, tail: nat, h1: nat, h2: nat, h3: nat)
    requires h1 < size <= 0x4000_0000 && h2 < size && h3 < size && tail < size
    requires Used(size, h3, tail) <= Used(size, h2, tail) <= Used(size, h1, tail)
    ensures TornSpace(size, tail, h1, h2, h3) == Space(size, h3, tail) <==> !(tail < h2 && h3 <= tail)
    ensures tail < h2 && h3 <= tail ==> TornSpace(size, tail, h1, h2, h3) > size + 255
  {
  }

  function MaskFor(size: nat): nat {
    if Bits.IsPowerOfTwo(size) then size - 1 else 0
  }

  /** The mask is set exactly for the powers of two from 2 up. */
  lemma MaskSet(size: nat)
    requires size > 0
    ensures MaskFor(size) != 0 <==> size > 1 && exists k :: size == Bits.Pow2(k)
    ensures MaskFor(size) != 0 ==> MaskFor(size) == size - 1
  {
    Bits.PowerOfTwoExactly(size);
  }

  /** The index reduction of both copy loops: masking when the mask is set, else modulo.
      The two agree, so one wrap-around describes every size. */
  method Reduce(i: nat, mask: nat, size: nat) returns (r: nat)
    requires i < 2 * size && mask == MaskFor(size)
    ensures r == Wrap(i, size)
  {
    ModIsWrap(i, size);
    if mask != 0 {
      Bits.MaskIsModulo(i, size);
      r := Bits.And(i, mask);
    } else {
      r := i % size;
    }
  }

  /** A ring buffer over a data area of 32-bit words. The size is bounded by what a
      32-bit address space can hold. */
  class RingBuf {
    const size: nat
    const mask: nat
    const buf: array<Word>
    var head: nat
    var tail: nat
    var dropped: Word
    ghost var items: seq<Item>

    ghost predicate Valid()
      reads this, buf
    {
      && 0 < size <= 0x4000_0000
      && buf.Length == size
      && mask == MaskFor(size)
      && Holds(buf[..], head, tail, items)
    }

    /** sys_ring_buf_init. */
    constructor (data: array<Word>)
      requires 0 < data.Length <= 0x4000_0000
      ensures Valid() && buf == data && items == [] && dropped == 0
    {
      head, tail, dropped := 0, 0, 0;
      size := data.Length;
      buf := data;
      mask := MaskFor(data.Length);
      items := [];
    }

    /** One word of an item, written in the free part of the buffer. */
    method StoreWord(index: nat, v: Word, ghost code: seq<Word>, ghost n: nat)
      requires buf.Length == size && Stored(buf[..], head, tail, items, code, n)
      requires n < |code| && v == code[n] && index == Wrap(tail + n, size)
      modifies buf
      ensures Stored(buf[..], head, tail, items, code, n + 1)
    {
      StoredStep(buf[..], head, tail, items, code, n);
      buf[index] := v;
      assert buf[..] == old(buf[..])[index := v];
    }

    /** The header write and the copy loop of sys_ring_buf_put: the item's words land in
        the free part of the buffer and the used part is untouched. */
    method Store(r: Item)
      requires buf.Length == size && mask == MaskFor(size) && Holds(buf[..], head, tail, items)
      requires |r.data| + 1 <= Space(size, head, tail)
      modifies buf
      ensures Stored(buf[..], head, tail, items, Encode(r), |r.data| + 1)
    {
      ghost var code := Encode(r);
      StoreWord(tail, Pack(Header(r.tag, |r.data|, r.value)), code, 0);
      var i := 0;
      while i < |r.data|
        invariant i <= |r.data|
        invariant Stored(buf[..], head, tail, items, code, i + 1)
      {
        var index := Reduce(i + tail + 1, mask, size);
        StoreWord(index, r.data[i], code, i + 1);
        i := i + 1;
      }
    }

    /** sys_ring_buf_put. */
    method Put(tag: U16, value: U8, data: seq<Word>) returns (rc: int)
      requires Valid() && |data| <= 255
      modifies this`tail, this`dropped, this`items, buf
      ensures Valid()
      ensures rc == if |Flatten(old(items))| + |data| + 1 < size then 0 else -EMSGSIZE
      ensures rc == 0 ==> items == old(items) + [Item(tag, value, data)] && dropped == old(dropped)
      ensures rc != 0 ==> items == old(items) && tail == old(tail) && buf[..] == old(buf[..])
      ensures rc != 0 ==> dropped == (old(dropped) + 1) % 0x1_0000_0000
    {
      var space := Space(size, head, tail);
      if space >= |data| + 1 {
        var r: Item := Item(tag, value, data);
        Store(r);
        HoldsAppend(buf[..], head, tail, items, r);
        tail := Reduce(tail + |data| + 1, mask, size);
        items := items + [r];
        rc := 0;
      } else {
        dropped := (dropped + 1) % 0x1_0000_0000;
        rc := -EMSGSIZE;
      }
    }

    /** The copy loop of sys_ring_buf_get. */
    method CopyOut(data: array<Word>, length: nat)
      requires Valid() && items != [] && |items[0].data| == length <= data.Length && data != buf
      modifies data
      ensures data[..length] == items[0].data && data[length..] == old(data[length..])
    {
      HoldsRemove(buf[..], head, tail, items);
      ghost var first := Encode(items[0]);
      var i := 0;
      while i < length
        invariant i <= length
        invariant data[..i] == items[0].data[..i]
        invariant data[i..] == old(data[..])[i..]
      {
        var index := Reduce(i + head + 1, mask, size);
        assert buf[..][index] == first[i + 1] == items[0].data[i];
        data[i] := buf[index];
        i := i + 1;
      }
    }

    /** sys_ring_buf_get into a data area of capacity words. The out-parameter size32 is
        the value the source leaves in *size32. */
    method Get(data: array<Word>, capacity: U8) returns (rc: int, tag: U16, value: U8, size32: U8)
      requires Valid() && capacity <= data.Length && data != buf
      modifies this`head, this`items, data
      ensures Valid()
      ensures rc == if old(items) == [] then -EAGAIN else if |old(items)[0].data| > capacity then -EMSGSIZE else 0
      ensures rc == 0 ==> items == old(items)[1..] && size32 == |old(items)[0].data|
      ensures rc == 0 ==> old(items)[0] == Item(tag, value, data[..size32]) && data[size32..] == old(data[size32..])
      ensures rc == -EMSGSIZE ==> size32 == |old(items)[0].data|
      ensures rc == -EAGAIN ==> size32 == capacity
      ensures rc != 0 ==> items == old(items) && head == old(head) && data[..] == old(data[..])
    {
      HoldsEmpty(buf[..], head, tail, items);
      tag, value, size32 := 0, 0, capacity;
      if head == tail {
        return -EAGAIN, tag, value, size32;
      }
      HoldsRemove(buf[..], head, tail, items);
      var header := Unpack(buf[head]);
      size32 := header.length;
      if header.length > capacity {
        return -EMSGSIZE, tag, value, size32;
      }
      tag, value := header.tag, header.value;
      CopyOut(data, header.length);
      head := Reduce(head + header.length + 1, mask, size);
      items := items[1..];
      rc := 0;
    }
  }
}
