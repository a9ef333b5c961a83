/** The nRF5 internal flash driver, drivers/flash/soc_flash_nrf5.c: unaligned byte writes
    built from word programming, and page erase. */
module Nrf5Flash {
  import opened CTypes
  import Bits

  // ---------------------------------------------------------------- NOR memory

  /** Programming can only clear bits: a byte becomes data AND old. */
  function ProgramByte(was: U8, data: U8): (r: U8) {
    Bits.AndBound(data, was);
    Bits.And(data, was)
  }

  /** Each bit is set afterwards exactly when it was set and is set in the data. */
  lemma ProgramBits(was: U8, data: U8, k: nat)
    ensures Bits.Bit(ProgramByte(was, data), k) <==> Bits.Bit(was, k) && Bits.Bit(data, k)
  {
    Bits.AndBits(data, was, k);
  }

  /** Reprogramming a byte with itself changes nothing; an erased byte takes the data. */
  lemma ProgramFacts(b: U8)
    ensures ProgramByte(b, b) == b && ProgramByte(0xFF, b) == b
  {
    Bits.AndSelf(b);
    Bits.AndByte(b);
  }

  /** NVMC configuration: read-only, write-enabled or erase-enabled. */
  datatype Mode = Ren | Wen | Een

  const SPACE := 0x1_0000_0000

  /** The bus address k bytes after a: addresses have 32 bits. */
  function At(a: U32, k: U32): U32 { if a + k < SPACE then a + k else a + k - SPACE }

  /** How many bytes after a the address i comes. */
  function Offset(a: U32, i: U32): U32 { if i >= a then i - a else i + SPACE - a }

  /** Flash memory, at the bottom of the address space, went from was to now by a write of
      data from address a on: with writing enabled each byte that the range meets is
      programmed; every other byte, and without writing enabled every byte, is as it was. */
  ghost predicate Wrote(mode: Mode, was: seq<U8>, now: seq<U8>, a: U32, data: seq<U8>) {
    && |now| == |was| < SPACE
    && forall i :: 0 <= i < |was| ==>
         now[i] == if mode == Wen && Offset(a, i) < |data| then ProgramByte(was[i], data[Offset(a, i)]) else was[i]
  }

  /** Erasing sets every bit of the flash bytes among the n from address a on. */
  ghost predicate WasErased(was: seq<U8>, now: seq<U8>, a: U32, n: nat) {
    && |now| == |was| < SPACE
    && forall i :: 0 <= i < |was| ==> now[i] == if Offset(a, i) < n then 0xFF else was[i]
  }

  /** Writing two adjacent runs is writing their concatenation. */
  lemma WroteMore(mode: Mode, m0: seq<U8>, m1: seq<U8>, m2: seq<U8>, a: U32, data: seq<U8>, done: nat, n: nat)
    requires done + n <= |data| < SPACE
    requires Wrote(mode, m0, m1, a, data[..done]) && Wrote(mode, m1, m2, At(a, done), data[done..done + n])
    ensures Wrote(mode, m0, m2, a, data[..done + n])
  {
    forall i | 0 <= i < |m0|
      ensures m2[i] == if mode == Wen && Offset(a, i) < done + n then ProgramByte(m0[i], data[..done + n][Offset(a, i)])
                       else m0[i]
    {
      OffsetAfter(a, done, i);
    }
  }

  lemma OffsetAfter(a: U32, k: U32, i: U32)
    ensures Offset(At(a, k), i) == if Offset(a, i) >= k then Offset(a, i) - k else Offset(a, i) + SPACE - k
  {
  }

  lemma ErasedMore(m0: seq<U8>, m1: seq<U8>, m2: seq<U8>, a: U32, done: nat, n: nat)
    requires done + n < SPACE && WasErased(m0, m1, a, done) && WasErased(m1, m2, At(a, done), n)
    ensures WasErased(m0, m2, a, done + n)
  {
    forall i | 0 <= i < |m0| ensures m2[i] == if Offset(a, i) < done + n then 0xFF else m0[i] {
      OffsetAfter(a, done, i);
    }
  }

  /** A range inside the flash meets exactly its own bytes. */
  lemma InsideRange(a: U32, n: nat, total: nat, i: nat)
    requires a + n <= total < 0x8000_0000 && i < total
    ensures Offset(a, i) < n <==> a <= i < a + n
    ensures a <= i ==> Offset(a, i) == i - a
  {
  }

  /** The bytes of word with data copied over those from k on. */
  function Patched(word: seq<U8>, k: nat, data: seq<U8>): (r: seq<U8>)
    requires k + |data| <= |word|
    ensures |r| == |word|
    ensures forall i :: 0 <= i < |word| ==> r[i] == if k <= i < k + |data| then data[i - k] else word[i]
  {
    word[..k] + data + word[k + |data|..]
  }

  /** Reading a word, replacing some of its bytes and programming it back changes those
      bytes only. */
  lemma PatchWord(mode: Mode, was: seq<U8>, now: seq<U8>, w: U32, k: nat, data: seq<U8>)
    requires w + 4 <= |was| && k + |data| <= 4
    requires Wrote(mode, was, now, w, Patched(was[w..w + 4], k, data))
    ensures Wrote(mode, was, now, w + k, data)
  {
    forall i | 0 <= i < |was|
      ensures now[i] == if mode == Wen && Offset(w + k, i) < |data| then ProgramByte(was[i], data[Offset(w + k, i)])
                        else was[i]
    {
      ProgramFacts(was[i]);
    }
  }

  /** Data written with writing enabled over erased bytes of the flash reads back unchanged. */
  lemma EraseWriteRead(m0: seq<U8>, m1: seq<U8>, m2: seq<U8>, p: U32, n: nat, a: U32, data: seq<U8>)
    requires WasErased(m0, m1, p, n) && Wrote(Wen, m1, m2, a, data)
    requires p <= a && a + |data| <= p + n <= |m0| < 0x8000_0000
    ensures m2[a..a + |data|] == data
    ensures forall i :: 0 <= i < |m0| && !(a <= i < a + |data|) ==> m2[i] == if p <= i < p + n then 0xFF else m0[i]
  {
    forall k | 0 <= k < |data| ensures m2[a + k] == data[k] {
      ProgramFacts(data[k]);
    }
  }

  // ---------------------------------------------------------------- addresses

  /** is_addr_valid: addr + len is computed in 32 bits. */
  predicate AddressValid(total: nat, addr: I32, len: U32) {
    !((addr + len) % 0x1_0000_0000 > total || addr < 0)
  }

  /** The check accepts exactly the ranges inside the flash, and the ranges whose end
      overflows 32 bits to a value inside it. */
  lemma AddressValidExactly(total: nat, addr: I32, len: U32)
    requires total < 0x8000_0000
    ensures AddressValid(total, addr, len) <==> InFlash(total, addr, len) || WrapsInto(total, addr, len)
  {
  }

  predicate InFlash(total: nat, addr: I32, len: U32) { addr >= 0 && addr + len <= total }

  /** The end overflows 32 bits to an address in the flash. */
  predicate WrapsInto(total: nat, addr: I32, len: U32) {
    addr >= 0 && 0x1_0000_0000 <= addr + len <= 0x1_0000_0000 + total
  }

  /** An accepted request that does not lie in the flash. */
  lemma AddressWraps()
    ensures AddressValid(0x4_0000, 0x1000, 0xFFFF_F800) && 0x1000 + 0xFFFF_F800 > 0x4_0000
  {
  }

  lemma AlignedAround(addr: nat)
    ensures (addr - addr % 4) % 4 == 0 && (addr + (4 - addr % 4)) % 4 == 0
  {
  }

  lemma MulNext(i: nat, n: nat, d: nat)
    requires i < n
    ensures i * d + d == (i + 1) * d <= n * d
  {
    assert n * d == (i + 1) * d + (n - i - 1) * d;
  }

  lemma WholePages(size: nat, page: nat)
    requires page > 0
    ensures size % page == 0 <==> size / page * page == size
    ensures size % page == 0 ==> (size / page == 0 <==> size == 0)
  {
    assert size == size / page * page + size % page;
  }

  // ---------------------------------------------------------------- the driver

  /** outside is what the bus reads at addresses beyond the flash. */
  class Flash {
    const pageSize: nat
    const pages: nat
    const mem: array<U8>
    const outside: nat -> U8
    var mode: Mode

    predicate Valid() {
      && 0 < pageSize && pageSize % 4 == 0 && SPACE % pageSize == 0
      && mem.Length == pageSize * pages < 0x8000_0000 && mem.Length % 4 == 0 && mem.Length % pageSize == 0
    }

    /** A flash that is read-only, as after reset. */
    constructor (size: nat, count: nat, outside: nat -> U8)
      requires 0 < size && size % 4 == 0 && SPACE % size == 0
      requires size * count < 0x8000_0000 && size * count % 4 == 0 && size * count % size == 0
      ensures Valid() && pageSize == size && pages == count && mode == Ren && fresh(mem)
    {
      pageSize, pages, mode := size, count, Ren;
      mem := new U8[size * count];
      this.outside := outside;
    }

    /** A word store; in the flash it takes effect only while writing is enabled, and beyond
        the flash it does not touch it. */
    method StoreWord(a: U32, word: seq<U8>)
      requires a % 4 == 0 && mem.Length % 4 == 0 && mem.Length < SPACE && |word| == 4
      modifies mem
      ensures Wrote(mode, old(mem[..]), mem[..], a, word)
    {
      if mode == Wen && a + 4 <= mem.Length {
        mem[a] := ProgramByte(mem[a], word[0]);
        mem[a + 1] := ProgramByte(mem[a + 1], word[1]);
        mem[a + 2] := ProgramByte(mem[a + 2], word[2]);
        mem[a + 3] := ProgramByte(mem[a + 3], word[3]);
      }
    }

    /** The word at an address, in the flash or beyond it. */
    function WordAt(a: U32): (w: seq<U8>)
      requires a % 4 == 0 && mem.Length % 4 == 0
      reads mem
      ensures |w| == 4
    {
      if a + 4 <= mem.Length then mem[a..a + 4] else [outside(a), outside(a + 1), outside(a + 2), outside(a + 3)]
    }

    /** Read a word, replace some of its bytes, store it back. */
    method StorePart(word: U32, k: nat, bytes: seq<U8>)
      requires word % 4 == 0 && mem.Length % 4 == 0 && mem.Length < SPACE && k + |bytes| <= 4 && word + k < SPACE
      modifies mem
      ensures Wrote(mode, old(mem[..]), mem[..], word + k, bytes)
    {
      var tmp := Patched(WordAt(word), k, bytes);
      StoreWord(word, tmp);
      if word + 4 <= mem.Length {
        assert old(mem[word..word + 4]) == old(mem[..])[word..word + 4];
        PatchWord(mode, old(mem[..]), mem[..], word, k, bytes);
      }
    }

    /** Store the next n bytes of data, at most a word of them, at a word boundary. */
    method StoreNext(word: U32, addr: U32, data: seq<U8>, done: nat, n: nat, ghost was: seq<U8>)
      requires mem.Length % 4 == 0 && mem.Length < SPACE && n <= 4 && done + n <= |data| < SPACE
      requires word % 4 == 0 && word == At(addr, done) && Wrote(mode, was, mem[..], addr, data[..done])
      modifies mem
      ensures Wrote(mode, was, mem[..], addr, data[..done + n])
    {
      if n == 4 {
        StoreWord(word, data[done..done + n]);
      } else {
        StorePart(word, 0, data[done..done + n]);
      }
      WroteMore(mode, was, old(mem[..]), mem[..], addr, data, done, n);
    }

    /** The first word of flash_nrf5_write when the address is not aligned. */
    method StoreFirst(addr: U32, data: seq<U8>) returns (done: nat)
      requires mem.Length % 4 == 0 && mem.Length < SPACE && addr < 0x8000_0000 && |data| < SPACE
      modifies mem
      ensures done <= |data| && (done < |data| ==> At(addr, done) % 4 == 0)
      ensures Wrote(mode, old(mem[..]), mem[..], addr, data[..done])
    {
      done := 0;
      if addr % 4 != 0 {
        AlignedAround(addr);
        done := if 4 - addr % 4 > |data| then |data| else 4 - addr % 4;
        StorePart(addr - addr % 4, addr % 4, data[..done]);
      }
    }

    /** The word loop of flash_nrf5_write, with its unaligned first and last words. */
    method WriteWords(addr: U32, data: seq<U8>)
      requires mem.Length % 4 == 0 && mem.Length < SPACE && addr < 0x8000_0000 && |data| < SPACE
      modifies mem
      ensures Wrote(mode, old(mem[..]), mem[..], addr, data)
    {
      var done := StoreFirst(addr, data);
      var word, remaining := At(addr, done), |data| - done;
      while remaining >= 4
        invariant done + remaining == |data| && 0 <= remaining && word == At(addr, done)
        invariant remaining > 0 ==> word % 4 == 0
        invariant Wrote(mode, old(mem[..]), mem[..], addr, data[..done])
      {
        StoreNext(word, addr, data, done, 4, old(mem[..]));
        done, word, remaining := done + 4, At(word, 4), remaining - 4;
      }
      if remaining > 0 {
        StoreNext(word, addr, data, done, remaining, old(mem[..]));
      }
      assert data[..done + remaining] == data;
    }

    /** flash_nrf5_write, for every address and length. */
    method Write(addr: I32, data: seq<U8>) returns (ret: int)
      requires Valid() && |data| < SPACE
      modifies mem
      ensures ret == if InFlash(mem.Length, addr, |data|) || WrapsInto(mem.Length, addr, |data|) then 0 else -EINVAL
      ensures ret != 0 ==> mem[..] == old(mem[..])
      ensures ret == 0 ==> Wrote(mode, old(mem[..]), mem[..], addr, data)
      ensures mode != Wen ==> mem[..] == old(mem[..])
      ensures mode == Wen && InFlash(mem.Length, addr, |data|) ==> forall i :: 0 <= i < mem.Length ==>
        mem[i] == if addr <= i < addr + |data| then ProgramByte(old(mem[i]), data[i - addr]) else old(mem[i])
    {
      AddressValidExactly(mem.Length, addr, |data|);
      if !AddressValid(mem.Length, addr, |data|) {
        return -EINVAL;
      }
      WriteWords(addr, data);
      ret := 0;
    }

    /** flash_nrf5_read, for every address and length. */
    method Read(addr: I32, data: array<U8>) returns (ret: int)
      requires Valid() && data.Length < SPACE && data != mem
      modifies data
      ensures ret ==
        if InFlash(mem.Length, addr, data.Length) || WrapsInto(mem.Length, addr, data.Length) then 0 else -EINVAL
      ensures ret != 0 ==> data[..] == old(data[..])
      ensures ret == 0 ==> forall i :: 0 <= i < data.Length ==>
        data[i] == if At(addr, i) < mem.Length then mem[At(addr, i)] else outside(At(addr, i))
    {
      AddressValidExactly(mem.Length, addr, data.Length);
      if !AddressValid(mem.Length, addr, data.Length) {
        return -EINVAL;
      }
      forall i | 0 <= i < data.Length {
        data[i] := if At(addr, i) < mem.Length then mem[At(addr, i)] else outside(At(addr, i));
      }
      ret := 0;
    }

    /** The page erase register; it takes effect only while erasing is enabled, on a page of
        the flash. */
    method ErasePage(a: U32)
      requires Valid() && a % pageSize == 0
      modifies mem
      ensures WasErased(old(mem[..]), mem[..], a, if mode == Een then pageSize else 0)
    {
      PageApart(a, pageSize, mem.Length);
      if mode == Een && a < mem.Length {
        forall i | a <= i < a + pageSize {
          mem[i] := 0xFF;
        }
      }
    }

    /** The page loop of flash_nrf5_erase. */
    method ErasePages(addr: U32, count: nat)
      requires Valid() && mode == Een && addr % pageSize == 0 && count * pageSize < SPACE
      modifies mem
      ensures WasErased(old(mem[..]), mem[..], addr, count * pageSize)
    {
      var i := 0;
      while i < count
        invariant 0 <= i <= count && 0 <= i * pageSize <= count * pageSize
        invariant WasErased(old(mem[..]), mem[..], addr, i * pageSize)
      {
        MulNext(i, count, pageSize);
        PageAligned(addr, i, pageSize);
        ghost var was := mem[..];
        ErasePage(At(addr, i * pageSize));
        ErasedMore(old(mem[..]), was, mem[..], addr, i * pageSize, pageSize);
        i := i + 1;
      }
    }

    /** The checks of flash_nrf5_erase: a positive number of whole pages at a page boundary,
        in an accepted range. */
    method Erasable(addr: I32, size: U32) returns (ok: bool)
      requires Valid()
      ensures ok == Pages(pageSize, mem.Length, addr, size)
      ensures ok ==> size / pageSize * pageSize == size
    {
      var count := size / pageSize;
      AddressValidExactly(mem.Length, addr, size);
      WholePages(size, pageSize);
      if addr % SPACE % pageSize != 0 || size % pageSize != 0 || count == 0 {
        ok := false;
      } else {
        ok := AddressValid(mem.Length, addr, size);
      }
    }

    /** flash_nrf5_erase, for every address and size: whole pages, and writing is disabled
        afterwards. */
    method Erase(addr: I32, size: U32) returns (ret: int)
      requires Valid()
      modifies mem, this`mode
      ensures ret == if Pages(pageSize, mem.Length, addr, size) then 0 else -EINVAL
      ensures ret == 0 ==> WasErased(old(mem[..]), mem[..], addr, size) && mode == Ren
      ensures ret == 0 && InFlash(mem.Length, addr, size) ==> forall i :: 0 <= i < mem.Length ==>
        mem[i] == if addr <= i < addr + size then 0xFF else old(mem[i])
      ensures ret != 0 ==> mem[..] == old(mem[..]) && mode == old(mode)
    {
      var ok := Erasable(addr, size);
      if !ok {
        return -EINVAL;
      }
      mode := Een;
      ErasePages(addr, size / pageSize);
      mode := Ren;
      ret := 0;
    }

    /** flash_nrf5_write_protection. */
    method WriteProtection(enable: bool)
      modifies this`mode
      ensures mode == if enable then Ren else Wen
    {
      mode := if enable then Ren else Wen;
    }
  }

  /** Through the driver's own functions: pages of the flash erased, protection lifted, data
      written into them and read back. Every call succeeds, the data comes back,
      the rest of the pages is erased and every other byte is as it was. */
  method EraseWriteReadBack(flash: Flash, page: I32, size: U32, addr: I32, data: seq<U8>, out: array<U8>)
    returns (ok: bool)
    requires flash.Valid() && page >= 0 && page % flash.pageSize == 0 && size % flash.pageSize == 0 && size > 0
    requires page <= addr && addr + |data| <= page + size <= flash.mem.Length
    requires out != flash.mem && out.Length == |data|
    modifies flash.mem, flash`mode, out
    ensures ok && out[..] == data
    ensures forall i :: 0 <= i < flash.mem.Length ==>
      flash.mem[i] == if addr <= i < addr + |data| then data[i - addr]
                      else if page <= i < page + size then 0xFF else old(flash.mem[i])
  {
    ghost var m0 := flash.mem[..];
    var erased := flash.Erase(page, size);
    ghost var m1 := flash.mem[..];
    flash.WriteProtection(false);
    var wrote := flash.Write(addr, data);
    ghost var m2 := flash.mem[..];
    flash.WriteProtection(true);
    var got := flash.Read(addr, out);
    ok := erased == 0 && wrote == 0 && got == 0;
    EraseWriteRead(m0, m1, m2, page, size, addr, data);
  }

  /** A positive number of whole pages, from a page boundary, in an accepted range. */
  predicate Pages(page: nat, total: nat, addr: I32, size: U32)
    requires page > 0
  {
    && (InFlash(total, addr, size) || WrapsInto(total, addr, size))
    && addr % page == 0 && size % page == 0 && size > 0
  }

  /** A page lies in the flash or beyond it, and never wraps. */
  lemma PageApart(a: U32, page: nat, total: nat)
    requires page > 0 && a % page == 0 && total % page == 0 && SPACE % page == 0
    ensures a + page <= SPACE && (a < total ==> a + page <= total)
  {
    NextMultiple(a, page, SPACE);
    if a < total { NextMultiple(a, page, total); }
  }

  lemma NextMultiple(a: nat, page: nat, b: nat)
    requires page > 0 && a % page == 0 && b % page == 0 && a < b
    ensures a + page <= b
  {
    var p, q := a / page, b / page;
    assert a == page * p && b == page * q;
    if p < q {
      Bits.MulApart(page, q, p);
    }
  }

  lemma PageAligned(a: U32, i: nat, page: nat)
    requires page > 0 && a % page == 0 && SPACE % page == 0 && i * page < SPACE
    ensures At(a, i * page) % page == 0
  {
    var p, s := a / page, SPACE / page;
    assert a == page * p && SPACE == page * s;
    if a + i * page < SPACE {
      assert a + i * page == page * (p + i);
      Bits.DivModUnique(a + i * page, page, p + i, 0);
    } else {
      assert a + i * page - SPACE == page * (p + i - s);
      if p + i < s {
        Bits.MulApart(page, s, p + i);
      }
      Bits.DivModUnique(a + i * page - SPACE, page, p + i - s, 0);
    }
  }
}
