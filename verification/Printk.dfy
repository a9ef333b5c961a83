/** misc/printk.c: the format interpreter, its digit loops and the two character sinks. */
module Printk {

  import opened CTypes
  import opened CStrings
  import opened Numerals
  import opened PrintkFormat

  /** A character stored in a byte. */
  function Low(c: int): U8 { c % 256 }

  /** The buffer while printing: sent characters from the start, a NUL in the last place
      once the output has reached it, the rest as it was. */
  ghost predicate Storing(was: seq<U8>, now: seq<U8>, max: int, sent: seq<int>) {
    && |now| == |was| && max <= |was|
    && forall j :: 0 <= j < |was| ==>
         now[j] == if j < |sent| && j < max - 1 then Low(sent[j])
                   else if j == max - 1 && max <= |sent| then 0
                   else was[j]
  }

  /** The buffer after printing: the first characters that leave room for a NUL, the NUL,
      and nothing else changed. */
  ghost predicate Stored(was: seq<U8>, now: seq<U8>, max: int, sent: seq<int>) {
    && |now| == |was| && max <= |was|
    && forall j :: 0 <= j < |was| ==>
         now[j] == if max <= 0 then was[j]
                   else if j < Min(|sent|, max - 1) then Low(sent[j])
                   else if j == Min(|sent|, max - 1) then 0
                   else was[j]
  }

  /** A NUL behind the last character completes what was stored so far. */
  lemma FinalNul(was: seq<U8>, now: seq<U8>, max: int, sent: seq<int>)
    requires Storing(was, now, max, sent)
    ensures Stored(was, if |sent| < max then now[|sent| := 0] else now, max, sent)
  {
  }

  /** Whatever is stored reads back as the bytes of the output, cut one short of the size. */
  lemma StoredReads(was: seq<U8>, now: seq<U8>, max: int, sent: seq<int>)
    requires Stored(was, now, max, sent) && max >= 1
    requires forall j :: 0 <= j < |sent| ==> Low(sent[j]) != 0
    ensures var t := CString(now);
      && |t| == Min(|sent|, max - 1)
      && forall j :: 0 <= j < |t| ==> t[j] == Low(sent[j])
  {
    var k := Min(|sent|, max - 1);
    assert TerminatedAt(now, 0, now[..k]);
    TerminatedReads(now, 0, now[..k]);
    assert now[0..] == now;
  }

  /** The size is held in an int: from 0x8000_0000 up nothing is stored, not even a NUL. */
  lemma SizeLimit(was: seq<U8>, now: seq<U8>, size: U32, sent: seq<int>)
    requires 1 <= size <= |was| == |now|
    ensures Stored(was, now, Signed32(size), sent) <==>
      if size < 0x8000_0000 then
        forall j :: 0 <= j < |was| ==>
          now[j] == if j < Min(|sent|, size - 1) then Low(sent[j])
                    else if j == Min(|sent|, size - 1) then 0
                    else was[j]
      else now == was
  {
    if size >= 0x8000_0000 && Stored(was, now, Signed32(size), sent) {
      assert forall j :: 0 <= j < |was| ==> now[j] == was[j];
    }
  }

  /** An output function with its context: the console, or a bounded buffer that may be null. */
  class Out {
    const console: bool
    const str: array?<U8>
    const max: int
    var count: int
    var shown: seq<int>
    ghost const was: seq<U8>
    ghost var sent: seq<int>

    ghost predicate Valid()
      reads this, str
    {
      && count == |sent|
      && (console ==> str == null && shown == sent)
      && (str != null ==> Storing(was, str[..], max, sent))
    }

    constructor Console()
      ensures Valid() && sent == [] && console
    {
      console, str, max, count, shown := true, null, 0, 0, [];
      was, sent := [], [];
    }

    constructor Buffer(buffer: array?<U8>, size: U32)
      requires buffer != null ==> Signed32(size) <= buffer.Length
      ensures Valid() && sent == [] && !console && str == buffer && max == Signed32(size)
      ensures buffer != null ==> was == buffer[..]
    {
      console, str, max, count, shown := false, buffer, Signed32(size), 0, [];
      was, sent := if buffer == null then [] else buffer[..], [];
    }

    /** char_out. */
    method CharOut(c: int)
      requires Valid() && console
      modifies this
      ensures Valid() && sent == old(sent) + [c]
    {
      count := count + 1;
      shown := shown + [c];
      sent := sent + [c];
    }

    /** str_out. */
    method StrOut(c: int)
      requires Valid() && !console
      modifies this, str
      ensures Valid() && sent == old(sent) + [c]
    {
      sent := sent + [c];
      if str == null || count >= max {
        count := count + 1;
        return;
      }
      if count == max - 1 {
        str[count] := 0;
      } else {
        str[count] := Low(c);
      }
      count := count + 1;
    }

    method Put(c: int)
      requires Valid()
      modifies this, str
      ensures Valid() && sent == old(sent) + [c]
    {
      if console {
        CharOut(c);
      } else {
        StrOut(c);
      }
    }
  }

  /** Where a digit loop stands: padding first, then the digits found so far. */
  ghost predicate Emitted(sent: seq<int>, before: seq<int>, zero: bool, pads: int, ds: seq<nat>) {
    sent == before + Filled(ds, zero, pads)
  }

  lemma EmittedDigit(sent: seq<int>, before: seq<int>, zero: bool, pads: int, ds: seq<nat>, d: nat)
    requires Emitted(sent, before, zero, pads, ds)
    ensures Emitted(sent + [Glyph(d)], before, zero, pads, ds + [d])
  {
    TextSnoc(ds, d);
  }

  lemma EmittedPad(sent: seq<int>, before: seq<int>, zero: bool, pads: int)
    requires Emitted(sent, before, zero, pads, []) && pads >= 0
    ensures Emitted(sent + [Padding(zero)], before, zero, pads + 1, [])
  {
  }

  lemma EmittedSkip(sent: seq<int>, before: seq<int>, zero: bool, pads: int, other: int)
    requires Emitted(sent, before, zero, pads, []) && pads <= 0 && other <= 0
    ensures Emitted(sent, before, zero, other, [])
  {
  }

  lemma EmittedNone(sent: seq<int>, zero: bool, pads: int)
    requires pads <= 0
    ensures Emitted(sent, sent, zero, pads, [])
  {
  }

  /** The digits found after some places of num: they carry no leading zero. */
  ghost predicate Found(ds: seq<nat>, b: Radix) {
    && (ds != [] ==> ds[0] != 0)
    && forall j :: 0 <= j < |ds| ==> ds[j] < b.Size()
  }

  /** One more place: a leading zero is not recorded. */
  function Place(ds: seq<nat>, d: nat): seq<nat> { if ds == [] && d == 0 then [] else ds + [d] }

  lemma PlaceFound(ds: seq<nat>, d: nat, b: Radix)
    requires Found(ds, b) && d < b.Size()
    ensures Found(Place(ds, d), b)
    ensures Value(Place(ds, d), b) == b.Times(Value(ds, b)) + d
  {
    ValueSnoc(ds, d, b);
  }

  /** The last place is always written, so what stands there is the numeral. */
  lemma LastPlace(ds: seq<nat>, d: nat, b: Radix, n: nat)
    requires Found(ds, b) && d < b.Size() && n == b.Times(Value(ds, b)) + d
    ensures ds + [d] == Digits(n, b)
  {
    ValueSnoc(ds, d, b);
    NumeralUnique(ds + [d], b, n);
  }

  /** num shifted right by k nibbles. */
  function Shifted(num: U32, k: nat): U32 { if k == 0 then num else Shifted(num, k - 1) / 16 }

  lemma ShiftedOut(num: U32)
    ensures Shifted(num, 8) == 0
  {
    assert Shifted(num, 1) < 0x1000_0000;
    assert Shifted(num, 2) < 0x100_0000;
    assert Shifted(num, 3) < 0x10_0000;
    assert Shifted(num, 4) < 0x1_0000;
    assert Shifted(num, 5) < 0x1000;
    assert Shifted(num, 6) < 0x100;
    assert Shifted(num, 7) < 0x10;
  }

  /** What both digit loops do at a place other than the last: write the digit, or the
      padding for a leading zero inside the width. */
  method EmitPlace(out: Out, d: nat, found: bool, zero: bool, width: int, remaining: int,
                   ghost limit: nat, ghost place: nat, ghost before: seq<int>, ghost ds: seq<nat>)
    requires out.Valid() && place <= limit
    requires found == (ds != []) && (!found ==> remaining == place)
    requires Emitted(out.sent, before, zero, Min(width, limit) - (place + |ds|), ds)
    modifies out, out.str
    ensures out.Valid()
    ensures Emitted(out.sent, before, zero, Min(width, limit) - (place - 1 + |Place(ds, d)|), Place(ds, d))
  {
    if d != 0 || found {
      EmittedDigit(out.sent, before, zero, Min(width, limit) - (place + |ds|), ds, d);
      out.Put(Glyph(d));
    } else if remaining <= width {
      EmittedPad(out.sent, before, zero, Min(width, limit) - place);
      out.Put(if zero then ZERO else BLANK);
    } else {
      EmittedSkip(out.sent, before, zero, Min(width, limit) - place, Min(width, limit) - (place - 1));
    }
  }

  /** The last place completes the padded number. */
  lemma Complete(sent: seq<int>, before: seq<int>, zero: bool, width: int, limit: nat,
                 ds: seq<nat>, d: nat, b: Radix, n: nat)
    requires Emitted(sent, before, zero, Min(width, limit) - (1 + |ds|), ds)
    requires ds + [d] == Digits(n, b)
    ensures sent + [Glyph(d)] == before + Padded(n, b, zero, width, limit)
  {
    EmittedDigit(sent, before, zero, Min(width, limit) - (1 + |ds|), ds, d);
    assert |Digits(n, b)| == |ds| + 1;
  }

  method EmitLast(out: Out, d: nat, ghost zero: bool, ghost width: int, ghost limit: nat,
                  ghost before: seq<int>, ghost ds: seq<nat>, ghost b: Radix, ghost n: nat)
    requires out.Valid() && Emitted(out.sent, before, zero, Min(width, limit) - (1 + |ds|), ds)
    requires Found(ds, b) && d < b.Size() && n == b.Times(Value(ds, b)) + d
    modifies out, out.str
    ensures out.Valid() && out.sent == before + Padded(n, b, zero, width, limit)
  {
    LastPlace(ds, d, b, n);
    Complete(out.sent, before, zero, width, limit, ds, d, b, n);
    out.Put(Glyph(d));
  }

  /** Where the hexadecimal loop stands: the digits found are num without its last nibbles. */
  ghost predicate Shifting(num: U32, ds: seq<nat>, size: int) {
    Found(ds, Hexadecimal) && forall k: nat :: k == size ==> Value(ds, Hexadecimal) == Shifted(num, k)
  }

  lemma ShiftingNext(num: U32, ds: seq<nat>, size: nat)
    requires size > 0 && Shifting(num, ds, size)
    ensures Shifting(num, Place(ds, Shifted(num, size - 1) % 16), size - 1)
  {
    PlaceFound(ds, Shifted(num, size - 1) % 16, Hexadecimal);
    assert Shifted(num, size) == Shifted(num, size - 1) / 16;
  }

  /** The last nibble. */
  method HexFinish(out: Out, num: U32, ghost zero: bool, ghost width: int, ghost before: seq<int>, ghost ds: seq<nat>)
    requires out.Valid() && Shifting(num, ds, 1) && Emitted(out.sent, before, zero, Min(width, 8) - (1 + |ds|), ds)
    modifies out, out.str
    ensures out.Valid() && out.sent == before + Hex(num, zero, width)
  {
    assert Shifted(num, 1) == Shifted(num, 0) / 16;
    EmitLast(out, num % 16, zero, width, 8, before, ds, Hexadecimal, num);
  }

  /** The next nibble, from the top. */
  method Nibble(num: U32, size: nat, ghost ds: seq<nat>) returns (nibble: nat)
    requires size > 0 && Shifting(num, ds, size)
    ensures nibble < 16 && Shifting(num, Place(ds, nibble), size - 1)
  {
    nibble := Shifted(num, size - 1) % 16;
    ShiftingNext(num, ds, size);
  }

  /** One round of the hexadecimal loop. */
  method HexPlace(out: Out, num: U32, zero: bool, width: int, found: bool, remaining: int, size: nat,
                  ghost before: seq<int>, ghost ds: seq<nat>)
    returns (more: bool, left: int, ghost ds': seq<nat>)
    requires out.Valid() && 1 < size <= 8 && Shifting(num, ds, size) && found == (ds != [])
    requires (!found ==> remaining == size) && Emitted(out.sent, before, zero, Min(width, 8) - (size + |ds|), ds)
    modifies out, out.str
    ensures out.Valid() && Shifting(num, ds', size - 1) && more == (ds' != [])
    ensures (!more ==> left == size - 1) && Emitted(out.sent, before, zero, Min(width, 8) - (size - 1 + |ds'|), ds')
  {
    var nibble := Nibble(num, size, ds);
    EmitPlace(out, nibble, found, zero, width, remaining, 8, size, before, ds);
    ds' := Place(ds, nibble);
    more := nibble != 0 || found;
    left := if more then remaining else remaining - 1;
  }

  /** The hexadecimal loop, from wherever it stands. */
  method HexLoop(out: Out, num: U32, zero: bool, width: int, places: nat, ghost before: seq<int>)
    requires out.Valid() && 1 <= places <= 8 && Shifting(num, [], places)
    requires Emitted(out.sent, before, zero, Min(width, 8) - places, [])
    modifies out, out.str
    ensures out.Valid() && out.sent == before + Hex(num, zero, width)
  {
    var size, found, remaining := places, false, places as int;
    ghost var ds: seq<nat> := [];
    while size > 1
      invariant 1 <= size <= 8 && out.Valid() && Shifting(num, ds, size)
      invariant found == (ds != []) && (!found ==> remaining == size)
      invariant Emitted(out.sent, before, zero, Min(width, 8) - (size + |ds|), ds)
    {
      found, remaining, ds := HexPlace(out, num, zero, width, found, remaining, size, before, ds);
      size := size - 1;
    }
    HexFinish(out, num, zero, width, before, ds);
  }

  method HexUlong(out: Out, num: U32, zero: bool, width: int)
    requires out.Valid()
    modifies out, out.str
    ensures out.Valid() && out.sent == old(out.sent) + Hex(num, zero, width)
  {
    ShiftedOut(num);
    EmittedNone(out.sent, zero, Min(width, 8) - 8);
    HexLoop(out, num, zero, width, 8, out.sent);
  }

  /** One step of long division by powers of ten. */
  lemma DivisionStep(v: nat, p: nat, rest: nat)
    requires p >= 1 && rest < 10 * p
    ensures rest / p < 10 && rest % p < p
    ensures (rest / p == 0) <==> rest < p
    ensures v * (10 * p) + rest == (10 * v + rest / p) * p + rest % p
  {
    var d, r := rest / p, rest % p;
    assert rest == d * p + r;
    assert d < 10 && (d == 0 <==> rest < p) by { QuotientBound(d, p, r); }
    assert (10 * v + d) * p == v * (10 * p) + d * p;
  }

  lemma QuotientBound(d: nat, p: nat, r: nat)
    requires r < p && d * p + r < 10 * p
    ensures d < 10 && (d == 0 <==> d * p + r < p)
  {
  }

  /** The decimal loop: the digits found, scaled by the place, plus the remainder are num. */
  ghost predicate Dividing(num: nat, ds: seq<nat>, remaining: int, pos: nat, remainder: nat) {
    && 1 <= remaining <= 10 && Found(ds, Decimal)
    && forall k: nat :: k + 1 == remaining ==> Splits(num, Value(ds, Decimal), Power(Decimal, k), pos, remainder)
  }

  predicate Splits(num: nat, v: nat, p: nat, pos: nat, remainder: nat) {
    pos + 1 == p && remainder < 10 * p && v * (10 * p) + remainder == num
  }

  lemma DividingStart(num: U32)
    ensures Dividing(num, [], 10, 999_999_999, num)
  {
    assert Power(Decimal, 9) == 1_000_000_000 by { assert Power(Decimal, 5) == 100_000; }
  }

  lemma DividingLast(num: nat, ds: seq<nat>, remaining: int, pos: nat, remainder: nat)
    requires Dividing(num, ds, remaining, pos, remainder) && pos < 9
    ensures remaining == 1 && remainder < 10 && num == Decimal.Times(Value(ds, Decimal)) + remainder
  {
    assert Splits(num, Value(ds, Decimal), Power(Decimal, remaining - 1), pos, remainder);
    if remaining > 1 {
      PowerGrows(Decimal, remaining - 1);
    }
  }

  lemma NextPower(pos: nat, k: nat)
    requires pos >= 9 && pos + 1 == Power(Decimal, k)
    ensures k >= 1 && pos / 10 + 1 == Power(Decimal, k - 1) && 10 * (pos / 10 + 1) == pos + 1
  {
  }

  method Quotient(rest: nat, p: nat, ghost v: nat) returns (d: nat, left: nat)
    requires p >= 1 && rest < 10 * p
    ensures d < 10 && left < p && (d == 0 <==> rest < p)
    ensures v * (10 * p) + rest == (10 * v + d) * p + left
  {
    DivisionStep(v, p, rest);
    d, left := rest / p, rest % p;
  }

  lemma DividingNext(num: nat, ds: seq<nat>, remaining: int, pos: nat, remainder: nat, d: nat, left: nat)
    requires Dividing(num, ds, remaining, pos, remainder) && pos >= 9 && d < 10 && left < pos + 1
    requires Value(ds, Decimal) * (10 * (pos + 1)) + remainder == (10 * Value(ds, Decimal) + d) * (pos + 1) + left
    ensures remaining >= 2 && Dividing(num, Place(ds, d), remaining - 1, pos / 10, left)
  {
    assert Splits(num, Value(ds, Decimal), Power(Decimal, remaining - 1), pos, remainder);
    NextPower(pos, remaining - 1);
    PlaceFound(ds, d, Decimal);
    SplitsNext(num, Value(ds, Decimal), pos, remainder, d, left, Power(Decimal, remaining - 2));
  }

  lemma SplitsNext(num: nat, v: nat, pos: nat, remainder: nat, d: nat, left: nat, q: nat)
    requires Splits(num, v, pos + 1, pos, remainder) && 10 * q == pos + 1 && left < pos + 1
    requires v * (10 * (pos + 1)) + remainder == (10 * v + d) * (pos + 1) + left
    ensures Splits(num, 10 * v + d, q, pos / 10, left)
  {
  }

  /** The arithmetic of one place. */
  method Divide(pos: nat, remainder: nat, ghost num: nat, ghost ds: seq<nat>, ghost remaining: int)
    returns (d: nat, left: nat, next: nat)
    requires Dividing(num, ds, remaining, pos, remainder) && pos >= 9
    ensures d < 10 && (d == 0 <==> remainder <= pos) && remaining >= 2
    ensures Dividing(num, Place(ds, d), remaining - 1, next, left)
  {
    assert Splits(num, Value(ds, Decimal), Power(Decimal, remaining - 1), pos, remainder);
    d, left := Quotient(remainder, pos + 1, Value(ds, Decimal));
    next := pos / 10;
    DividingNext(num, ds, remaining, pos, remainder, d, left);
  }

  lemma WidthOne(n: nat, b: Radix, zero: bool, width: int, limit: nat)
    requires width <= 0 && limit >= 1
    ensures Padded(n, b, zero, 1, limit) == Padded(n, b, zero, width, limit)
  {
  }

  /** The last digit. */
  method DecFinish(out: Out, num: U32, ghost zero: bool, ghost width: int, ghost remaining: int,
                   ghost pos: nat, remainder: nat, ghost before: seq<int>, ghost ds: seq<nat>)
    requires out.Valid() && pos < 9 && Dividing(num, ds, remaining, pos, remainder)
    requires Emitted(out.sent, before, zero, Min(width, 10) - (remaining + |ds|), ds)
    modifies out, out.str
    ensures out.Valid() && out.sent == before + Unsigned(num, zero, width)
  {
    DividingLast(num, ds, remaining, pos, remainder);
    EmitLast(out, remainder, zero, width, 10, before, ds, Decimal, num);
  }

  /** One round of the decimal loop. */
  method DecPlace(out: Out, zero: bool, width: int, found: bool, remaining: int, pos: nat, remainder: nat,
                  ghost num: nat, ghost before: seq<int>, ghost ds: seq<nat>)
    returns (more: bool, next: nat, left: nat, ghost ds': seq<nat>)
    requires out.Valid() && pos >= 9 && Dividing(num, ds, remaining, pos, remainder) && found == (ds != [])
    requires Emitted(out.sent, before, zero, Min(width, 10) - (remaining + |ds|), ds)
    modifies out, out.str
    ensures out.Valid() && remaining >= 2 && Dividing(num, ds', remaining - 1, next, left) && more == (ds' != [])
    ensures Emitted(out.sent, before, zero, Min(width, 10) - (remaining - 1 + |ds'|), ds')
  {
    var d;
    d, left, next := Divide(pos, remainder, num, ds, remaining);
    EmitPlace(out, d, found, zero, width, remaining, 10, remaining, before, ds);
    ds' := Place(ds, d);
    more := found || remainder > pos;
  }

  /** The decimal loop, from wherever it stands. */
  method DecLoop(out: Out, num: U32, zero: bool, width: int, places: int, start: nat, ghost before: seq<int>)
    requires out.Valid() && Dividing(num, [], places, start, num)
    requires Emitted(out.sent, before, zero, Min(width, 10) - places, [])
    modifies out, out.str
    ensures out.Valid() && out.sent == before + Unsigned(num, zero, width)
  {
    var pos: nat, remainder: nat, found, remaining := start, num, false, places;
    ghost var ds: seq<nat> := [];
    while pos >= 9
      invariant out.Valid() && Dividing(num, ds, remaining, pos, remainder) && found == (ds != [])
      invariant Emitted(out.sent, before, zero, Min(width, 10) - (remaining + |ds|), ds)
      decreases remaining
    {
      found, pos, remainder, ds := DecPlace(out, zero, width, found, remaining, pos, remainder, num, before, ds);
      remaining := remaining - 1;
    }
    DecFinish(out, num, zero, width, remaining, pos, remainder, before, ds);
  }

  method DecUlong(out: Out, num: U32, zero: bool, minWidth: int)
    requires out.Valid()
    modifies out, out.str
    ensures out.Valid() && out.sent == old(out.sent) + Unsigned(num, zero, minWidth)
  {
    var width := minWidth;
    if width <= 0 {
      width := 1;
      WidthOne(num, Decimal, zero, minWidth, 10);
    }
    DividingStart(num);
    EmittedNone(out.sent, zero, Min(width, 10) - 10);
    DecLoop(out, num, zero, width, 10, 999_999_999, out.sent);
  }

  /** The %s loop. */
  method PutString(out: Out, s: CText)
    requires out.Valid()
    modifies out, out.str
    ensures out.Valid() && out.sent == old(out.sent) + s
  {
    var i := 0;
    while i < |s|
      invariant 0 <= i <= |s| && out.Valid() && out.sent == old(out.sent) + s[..i]
    {
      out.Put(s[i]);
      i := i + 1;
    }
    assert s[..|s|] == s;
  }

  /** %d: the sign, then the magnitude. Negation is two's complement. */
  method PutSigned(out: Out, arg: U32, zero: bool, width: int)
    requires out.Valid()
    modifies out, out.str
    ensures out.Valid() && out.sent == old(out.sent) + Signed(arg, zero, width)
  {
    var d, w := arg, width;
    ghost var sign: seq<int> := [];
    if Signed32(arg) < 0 {
      out.Put(MINUS);
      sign := [MINUS as int];
      d := 0 - Signed32(arg);
      w := width - 1;
    }
    SignedText(arg, zero, width);
    JoinText(old(out.sent), sign, Unsigned(d, zero, w));
    DecUlong(out, d, zero, w);
  }

  lemma SignedText(arg: U32, zero: bool, width: int)
    ensures Signed(arg, zero, width) ==
      if Signed32(arg) < 0 then [MINUS as int] + Unsigned(0 - Signed32(arg), zero, width - 1)
      else [] + Unsigned(arg, zero, width)
  {
  }

  method PutPointer(out: Out, arg: U32)
    requires out.Valid()
    modifies out, out.str
    ensures out.Valid() && out.sent == old(out.sent) + ([ZERO as int, 120] + Hex(arg, true, 8))
  {
    out.Put(ZERO);
    out.Put(120);
    HexUlong(out, arg, true, 8);
  }

  /** The switch on a character that ends a directive. */
  method Convert(out: Out, c: U8, zero: bool, width: int, arg: U32, text: U32 -> CText)
    requires out.Valid() && KindOf(c) !in {Digit, Modifier}
    modifies out, out.str
    ensures out.Valid() && out.sent == old(out.sent) + Converted(c, zero, width, arg, text)
  {
    match KindOf(c) {
      case Int => PutSigned(out, arg, zero, width);
      case Uint => DecUlong(out, arg, zero, width);
      case Pointer => PutPointer(out, arg);
      case HexWord => HexUlong(out, arg, zero, width);
      case Str => PutString(out, text(arg));
      case Chr => out.Put(Signed32(arg));
      case Percent => out.Put(c);
      case Other =>
        out.Put(PERCENT);
        out.Put(c);
    }
  }

  /** The interpreter has sent what the format so far means. */
  ghost predicate Interpreted(sent: seq<int>, before: seq<int>, fmt: seq<U8>, args: Args, mode: Mode, used: nat) {
    var o := Run(START, fmt, args);
    sent == before + o.text && mode == o.mode && used == o.used
  }

  /** What one character adds does not depend on the text before it. */
  lemma NextText(t: seq<int>, mode: Mode, used: nat, c: U8, args: Args)
    ensures var o := Next(Output([], mode, used), c, args);
      Next(Output(t, mode, used), c, args) == Output(t + o.text, o.mode, o.used)
  {
    assert t + [] == t;
    assert [] + [c] == [c];
    if mode.Directive? {
      var conv := Converted(c, mode.zero, mode.width, args.word(used), args.text);
      assert [] + conv == conv;
    }
  }

  lemma InterpretedNext(sent: seq<int>, before: seq<int>, fmt: seq<U8>, c: U8, args: Args, mode: Mode, used: nat)
    requires Interpreted(sent, before, fmt, args, mode, used)
    ensures var o := Next(Output([], mode, used), c, args);
      Interpreted(sent + o.text, before, fmt + [c], args, o.mode, o.used)
  {
    assert (fmt + [c])[..|fmt|] == fmt;
    var t := Run(START, fmt, args).text;
    NextText(t, mode, used, c, args);
    JoinText(before, t, Next(Output([], mode, used), c, args).text);
  }

  function ModeOf(mightFormat: bool, padZero: bool, minWidth: int): Mode {
    if mightFormat then Directive(padZero, minWidth) else Plain
  }

  /** The body of the interpreter's loop for the character c. */
  method Interpret(out: Out, c: U8, args: Args, mightFormat: bool, padZero: bool, minWidth: int, used: nat)
    returns (mightFormat': bool, padZero': bool, minWidth': int, used': nat)
    requires out.Valid()
    modifies out, out.str
    ensures var o := Next(Output([], ModeOf(mightFormat, padZero, minWidth), used), c, args);
      && out.Valid() && out.sent == old(out.sent) + o.text
      && ModeOf(mightFormat', padZero', minWidth') == o.mode && used' == o.used
  {
    mightFormat', padZero', minWidth', used' := mightFormat, padZero, minWidth, used;
    if !mightFormat {
      if c != PERCENT {
        out.Put(c);
      } else {
        mightFormat', minWidth', padZero' := true, -1, false;
      }
    } else if c == ZERO && minWidth < 0 && !padZero {
      padZero' := true;
    } else if KindOf(c).Digit? {
      minWidth' := if minWidth < 0 then c - ZERO else 10 * minWidth + c - ZERO;
    } else if KindOf(c).Modifier? {
    } else {
      Convert(out, c, padZero, minWidth, args.word(used), args.text);
      used' := used + Taken(c);
      mightFormat' := false;
    }
  }

  /** One round of the interpreter's loop. */
  method InterpretAt(out: Out, fmt: seq<U8>, i: nat, args: Args, mightFormat: bool, padZero: bool, minWidth: int,
                     used: nat, ghost before: seq<int>)
    returns (mightFormat': bool, padZero': bool, minWidth': int, used': nat)
    requires out.Valid() && i < |fmt|
    requires Interpreted(out.sent, before, fmt[..i], args, ModeOf(mightFormat, padZero, minWidth), used)
    modifies out, out.str
    ensures out.Valid()
    ensures Interpreted(out.sent, before, fmt[..i + 1], args, ModeOf(mightFormat', padZero', minWidth'), used')
  {
    InterpretedNext(out.sent, before, fmt[..i], fmt[i], args, ModeOf(mightFormat, padZero, minWidth), used);
    assert fmt[..i] + [fmt[i]] == fmt[..i + 1];
    mightFormat', padZero', minWidth', used' := Interpret(out, fmt[i], args, mightFormat, padZero, minWidth, used);
  }

  /** _vprintk. */
  method Vprintk(out: Out, fmt: seq<U8>, args: Args)
    requires out.Valid() && 0 in fmt
    modifies out, out.str
    ensures out.Valid() && out.sent == old(out.sent) + Printed(CString(fmt), args)
  {
    ghost var length := |CString(fmt)|;
    Terminated(fmt);
    var i, mightFormat, padZero, minWidth, used := 0, false, false, -1, 0;
    while fmt[i] != 0
      invariant 0 <= i <= length < |fmt| && out.Valid()
      invariant Interpreted(out.sent, old(out.sent), fmt[..i], args, ModeOf(mightFormat, padZero, minWidth), used)
      decreases length - i
    {
      assert i < length;
      mightFormat, padZero, minWidth, used :=
        InterpretAt(out, fmt, i, args, mightFormat, padZero, minWidth, used, old(out.sent));
      i := i + 1;
    }
    assert fmt[..i] == CString(fmt);
  }

  lemma {:induction false} Terminated(s: seq<U8>)
    requires 0 in s
    ensures |CString(s)| < |s| && CString(s) == s[..|CString(s)|]
    ensures forall j :: 0 <= j < |CString(s)| ==> s[j] != 0
  {
    if s[0] != 0 {
      Terminated(s[1..]);
    }
  }

  /** printk: every character reaches the console, and the count is returned. */
  method PrintToConsole(fmt: seq<U8>, args: Args) returns (n: int, shown: seq<int>)
    requires 0 in fmt
    ensures shown == Printed(CString(fmt), args) && n == |shown|
  {
    var out := new Out.Console();
    Vprintk(out, fmt, args);
    assert [] + Printed(CString(fmt), args) == Printed(CString(fmt), args);
    return out.count, out.shown;
  }

  /** snprintk and vsnprintk. A null buffer is usable only when the output reaches the size. */
  method PrintToBuffer(str: array?<U8>, size: U32, fmt: seq<U8>, args: Args) returns (n: int)
    requires 0 in fmt
    requires Signed32(size) <= if str == null then |Printed(CString(fmt), args)| else str.Length
    modifies str
    ensures n == |Printed(CString(fmt), args)|
    ensures str != null ==> Stored(old(str[..]), str[..], Signed32(size), Printed(CString(fmt), args))
  {
    var out := new Out.Buffer(str, size);
    Vprintk(out, fmt, args);
    assert [] + Printed(CString(fmt), args) == Printed(CString(fmt), args);
    n := out.count;
    if str != null {
      FinalNul(out.was, str[..], out.max, out.sent);
    }
    if out.count < out.max {
      str[out.count] := 0;
    }
  }
}
