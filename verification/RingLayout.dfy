/** Word-level layout of the ring buffer in misc/ring_buffer.c: 32-bit words, packed item
    headers, index wrap-around, and the encoding of a queue of items as a run of words. */
module RingLayout {
  import opened CTypes

  type Word = U32

  /** The item header: 16 bits of type, 8 bits of length, 8 bits of value. */
  datatype Header = Header(tag: U16, length: U8, value: U8)

  function Pack(h: Header): Word {
    h.tag + h.length * 0x1_0000 + h.value * 0x100_0000
  }

  function Unpack(w: Word): Header {
    Header(w % 0x1_0000, w / 0x1_0000 % 0x100, w / 0x100_0000)
  }

  lemma UnpackPack(h: Header)
    ensures Unpack(Pack(h)) == h
  {
  }

  /** Type in the low half, then length, then value. */
  lemma PackLayout(h: Header)
    ensures Pack(h) == h.tag + 65536 * (h.length + 256 * h.value)
  {
  }

  /** One queued data item; the length is an 8-bit count of words. */
  datatype Raw = Item(tag: U16, value: U8, data: seq<Word>)
  type Item = r: Raw | |r.data| <= 255 witness Item(0, 0, [])

  function HeaderOf(r: Item): Header {
    Header(r.tag, |r.data|, r.value)
  }

  function Encode(r: Item): seq<Word> {
    [Pack(HeaderOf(r))] + r.data
  }

  function Flatten(q: seq<Item>): seq<Word> {
    if q == [] then [] else Encode(q[0]) + Flatten(q[1..])
  }

  lemma {:induction false} FlattenAppend(q: seq<Item>, r: Item)
    ensures Flatten(q + [r]) == Flatten(q) + Encode(r)
  {
    if q == [] {
      assert q + [r] == [r];
      assert [r][1..] == [];
    } else {
      FlattenAppend(q[1..], r);
      assert (q + [r])[1..] == q[1..] + [r];
    }
  }

  /** The encoding is uniquely decodable: the words determine the queue. */
  lemma {:induction false} FlattenInjective(p: seq<Item>, q: seq<Item>)
    requires Flatten(p) == Flatten(q)
    ensures p == q
  {
    if p != [] && q != [] {
      var a, b := Encode(p[0]), Encode(q[0]);
      assert Flatten(p)[0] == a[0] && Flatten(q)[0] == b[0];
      UnpackPack(HeaderOf(p[0]));
      UnpackPack(HeaderOf(q[0]));
      assert HeaderOf(p[0]) == HeaderOf(q[0]);
      assert Flatten(p)[..|a|] == a && Flatten(q)[..|a|] == b;
      assert p[0].data == a[1..] && q[0].data == b[1..];
      assert Flatten(p)[|a|..] == Flatten(p[1..]) && Flatten(q)[|a|..] == Flatten(q[1..]);
      FlattenInjective(p[1..], q[1..]);
      assert p == [p[0]] + p[1..] && q == [q[0]] + q[1..];
    }
  }

  /** Index i reduced into [0, n) for i below 2n. */
  function Wrap(i: nat, n: nat): (r: nat)
    requires i < 2 * n
    ensures r < n && (r == i || r + n == i)
  {
    if i < n then i else i - n
  }

  lemma ModIsWrap(i: nat, n: nat)
    requires i < 2 * n
    ensures i % n == Wrap(i, n)
  {
    if i < n {
    } else {
      assert i == n + (i - n);
      assert (n + (i - n)) % n == (i - n) % n;
    }
  }

  /** The words from index start on, wrapping past the end, are those of code. */
  ghost predicate Reads(words: seq<Word>, start: nat, code: seq<Word>) {
    && start < |words| && |code| < |words|
    && forall k :: 0 <= k < |code| ==> words[Wrap(start + k, |words|)] == code[k]
  }

  lemma ReadsSplit(words: seq<Word>, start: nat, a: seq<Word>, b: seq<Word>)
    requires Reads(words, start, a + b)
    ensures Reads(words, start, a) && Reads(words, Wrap(start + |a|, |words|), b)
  {
    forall k | 0 <= k < |a| ensures words[Wrap(start + k, |words|)] == a[k] {
      assert (a + b)[k] == a[k];
    }
    forall k | 0 <= k < |b| ensures words[Wrap(Wrap(start + |a|, |words|) + k, |words|)] == b[k] {
      assert (a + b)[|a| + k] == b[k];
    }
  }

  lemma ReadsJoin(words: seq<Word>, start: nat, a: seq<Word>, b: seq<Word>)
    requires |a| + |b| < |words|
    requires Reads(words, start, a) && Reads(words, Wrap(start + |a|, |words|), b)
    ensures Reads(words, start, a + b)
  {
    forall k | 0 <= k < |a + b| ensures words[Wrap(start + k, |words|)] == (a + b)[k] {
      if k >= |a| {
        assert (a + b)[k] == b[k - |a|];
      }
    }
  }

  /** A write outside the words read leaves them alone. */
  lemma ReadsKept(words: seq<Word>, start: nat, code: seq<Word>, k: nat, v: Word)
    requires Reads(words, start, code) && |code| <= k < |words|
    ensures Reads(words[Wrap(start + k, |words|) := v], start, code)
  {
  }

  /** A write just past the words read extends them. */
  lemma ReadsExtended(words: seq<Word>, start: nat, code: seq<Word>, v: Word)
    requires Reads(words, start, code) && |code| + 1 < |words|
    ensures Reads(words[Wrap(start + |code|, |words|) := v], start, code + [v])
  {
  }

  /** Words in use between head and tail. */
  function Used(size: nat, head: nat, tail: nat): (u: nat)
    requires head < size && tail < size
    ensures u < size && tail == Wrap(head + u, size)
  {
    if head <= tail then tail - head else size - head + tail
  }

  /** The words of the ring between head and tail hold exactly the encoding of q. */
  ghost predicate Holds(words: seq<Word>, head: nat, tail: nat, q: seq<Item>) {
    && head < |words| && tail < |words|
    && Used(|words|, head, tail) == |Flatten(q)|
    && Reads(words, head, Flatten(q))
  }

  /** What is stored is a function of the words, the head and the tail. */
  lemma HoldsUnique(words: seq<Word>, head: nat, tail: nat, p: seq<Item>, q: seq<Item>)
    requires Holds(words, head, tail, p) && Holds(words, head, tail, q)
    ensures p == q
  {
    assert Flatten(p) == Flatten(q);
    FlattenInjective(p, q);
  }

  lemma HoldsEmpty(words: seq<Word>, head: nat, tail: nat, q: seq<Item>)
    requires Holds(words, head, tail, q)
    ensures q == [] <==> head == tail
  {
    if q != [] {
      assert |Flatten(q)| >= |Encode(q[0])| >= 1;
    }
  }

  /** The ring holds q, and the first n words of code are stored in its free part. */
  ghost predicate Stored(words: seq<Word>, head: nat, tail: nat, q: seq<Item>, code: seq<Word>, n: nat) {
    && Holds(words, head, tail, q)
    && n <= |code| && |Flatten(q)| + |code| < |words|
    && Reads(words, tail, code[..n])
  }

  /** Storing the next word of code. */
  lemma StoredStep(words: seq<Word>, head: nat, tail: nat, q: seq<Item>, code: seq<Word>, n: nat)
    requires Stored(words, head, tail, q, code, n) && n < |code|
    ensures Stored(words[Wrap(tail + n, |words|) := code[n]], head, tail, q, code, n + 1)
  {
    var used := |Flatten(q)|;
    assert Wrap(tail + n, |words|) == Wrap(head + (used + n), |words|);
    ReadsKept(words, head, Flatten(q), used + n, code[n]);
    ReadsExtended(words, tail, code[..n], code[n]);
    assert code[..n + 1] == code[..n] + [code[n]];
  }

  /** Once an item's words are all stored, moving the tail past them appends the item. */
  lemma HoldsAppend(words: seq<Word>, head: nat, tail: nat, q: seq<Item>, r: Item)
    requires Stored(words, head, tail, q, Encode(r), |Encode(r)|)
    ensures Holds(words, head, Wrap(tail + |Encode(r)|, |words|), q + [r])
  {
    assert Encode(r)[..|Encode(r)|] == Encode(r);
    ReadsJoin(words, head, Flatten(q), Encode(r));
    FlattenAppend(q, r);
  }

  /** The words at the head are the oldest item; moving the head past them removes it. */
  lemma HoldsRemove(words: seq<Word>, head: nat, tail: nat, q: seq<Item>)
    requires Holds(words, head, tail, q) && q != []
    ensures |Encode(q[0])| <= Used(|words|, head, tail)
    ensures Reads(words, head, Encode(q[0])) && Unpack(words[head]) == HeaderOf(q[0])
    ensures Holds(words, Wrap(head + |Encode(q[0])|, |words|), tail, q[1..])
  {
    ReadsSplit(words, head, Encode(q[0]), Flatten(q[1..]));
    assert words[Wrap(head + 0, |words|)] == Encode(q[0])[0];
    UnpackPack(HeaderOf(q[0]));
  }
}
