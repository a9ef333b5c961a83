/** Bitwise conjunction on naturals and the power-of-two test of include/misc/util.h. */
module Bits {

  /** x & y on unsigned integers of any width. */
  function And(x: nat, y: nat): (r: nat)
    decreases x
  {
    if x == 0 then 0 else (if y % 2 == 0 then 0 else x % 2) + 2 * And(x / 2, y / 2)
  }

  function Pow2(k: nat): (r: nat)
    ensures r >= 1
  {
    if k == 0 then 1 else 2 * Pow2(k - 1)
  }

  /** is_power_of_two: x is nonzero and shares no bit with x - 1. */
  predicate IsPowerOfTwo(x: nat) {
    x != 0 && And(x, x - 1) == 0
  }

  /** Bit k of x, counted from the lowest. */
  predicate Bit(x: nat, k: nat) { if k == 0 then x % 2 == 1 else Bit(x / 2, k - 1) }

  lemma {:induction false} BitIsQuotient(x: nat, k: nat)
    ensures Bit(x, k) <==> x / Pow2(k) % 2 == 1
  {
    if k > 0 {
      BitIsQuotient(x / 2, k - 1);
      HalfQuotient(x, Pow2(k - 1));
    }
  }

  lemma HalfQuotient(x: nat, m: nat)
    requires m > 0
    ensures x / (2 * m) == x / 2 / m
  {
    var q, r := x / 2 / m, x / 2 % m;
    assert x / 2 == m * q + r;
    assert x == 2 * m * q + (2 * r + x % 2);
    DivModUnique(x, 2 * m, q, 2 * r + x % 2);
  }

  /** A bit of the conjunction is set exactly when it is set in both operands. */
  lemma {:induction false} AndBits(x: nat, y: nat, k: nat)
    ensures Bit(And(x, y), k) <==> Bit(x, k) && Bit(y, k)
  {
    assert And(x, y) / 2 == And(x / 2, y / 2);
    if k > 0 { AndBits(x / 2, y / 2, k - 1); }
  }

  lemma {:induction false} AndBound(x: nat, y: nat)
    ensures And(x, y) <= x
  {
    if x != 0 {
      AndBound(x / 2, y / 2);
    }
  }

  lemma {:induction false} AndSelf(x: nat)
    ensures And(x, x) == x
  {
    if x != 0 {
      AndSelf(x / 2);
    }
  }

  /** What the bit test accepts is a power of two. */
  lemma {:induction false} PowerOfTwoExponent(x: nat) returns (k: nat)
    requires IsPowerOfTwo(x)
    ensures x == Pow2(k)
  {
    if x % 2 == 1 {
      AndSelf(x / 2);
      assert (x - 1) / 2 == x / 2;
      k := 0;
    } else {
      assert (x - 1) / 2 == x / 2 - 1;
      var j := PowerOfTwoExponent(x / 2);
      k := j + 1;
    }
  }

  lemma {:induction false} PowerAccepted(k: nat)
    ensures IsPowerOfTwo(Pow2(k))
  {
    if k > 0 {
      var m := Pow2(k - 1);
      PowerAccepted(k - 1);
      assert 2 * m / 2 == m && 2 * m % 2 == 0 && (2 * m - 1) / 2 == m - 1;
    } else {
      assert And(1, 0) == 0;
    }
  }

  /** The bit test recognises exactly the powers of two. */
  lemma PowerOfTwoExactly(x: nat)
    ensures IsPowerOfTwo(x) <==> exists k :: x == Pow2(k)
  {
    if IsPowerOfTwo(x) {
      var k := PowerOfTwoExponent(x);
    }
    if k :| x == Pow2(k) {
      PowerAccepted(k);
    }
  }

  lemma {:induction false} AndMaskIsMod(x: nat, k: nat)
    ensures And(x, Pow2(k) - 1) == x % Pow2(k)
  {
    if k == 0 {
      AndZero(x);
    } else {
      var m := Pow2(k - 1);
      HalveMod(x, m);
      if x != 0 {
        AndMaskIsMod(x / 2, k - 1);
        assert (2 * m - 1) / 2 == m - 1 && (2 * m - 1) % 2 == 1;
      }
    }
  }

  lemma {:induction false} AndZero(x: nat)
    ensures And(x, 0) == 0
  {
    if x != 0 {
      AndZero(x / 2);
    }
  }

  lemma HalveMod(x: nat, m: nat)
    requires m > 0
    ensures x % (2 * m) == x % 2 + 2 * (x / 2 % m)
  {
    var q := x / 2 / m;
    var r := x % 2 + 2 * (x / 2 % m);
    assert x / 2 == m * q + x / 2 % m;
    assert x == 2 * m * q + r && 0 <= r < 2 * m;
    DivModUnique(x, 2 * m, q, r);
  }

  /** Quotient and remainder are determined by the division equation. */
  lemma DivModUnique(x: nat, d: nat, q: nat, r: nat)
    requires r < d && x == d * q + r
    ensures x / d == q && x % d == r
  {
    var q', r' := x / d, x % d;
    assert x == d * q' + r';
    if q > q' {
      MulApart(d, q, q');
    } else if q < q' {
      MulApart(d, q', q);
    }
  }

  lemma MulApart(d: nat, a: nat, b: nat)
    requires a > b
    ensures d * a >= d * b + d
  {
    assert d * a == d * b + d * (a - b);
    assert d * (a - b) == d + d * (a - b - 1);
  }

  /** A mask of k ones keeps every number of k bits. */
  lemma {:induction false} AndFull(x: nat, k: nat, m: nat)
    requires m + 1 == Pow2(k) && x <= m
    ensures And(x, m) == x
  {
    if x != 0 {
      assert m == 2 * (Pow2(k - 1) - 1) + 1;
      AndFull(x / 2, k - 1, m / 2);
    }
  }

  lemma Powers()
    ensures Pow2(6) == 64 && Pow2(8) == 0x100
  {
    assert Pow2(4) == 16 && Pow2(6) == 4 * Pow2(4);
  }

  lemma AndByte(x: nat)
    requires x < 0x100
    ensures And(x, 0xFF) == x
  {
    Powers();
    AndFull(x, 8, 0xFF);
  }

  lemma AndSix(x: nat)
    requires x < 64
    ensures And(x, 0x3F) == x
  {
    Powers();
    AndFull(x, 6, 0x3F);
  }

  lemma AndEven(x: nat, y: nat)
    ensures And(x, 2 * y) == 2 * And(x / 2, y)
  {
    assert 2 * y / 2 == y;
  }

  lemma AndUpperSix(x: nat)
    requires x < 0x100
    ensures And(x, 0xFC) == 4 * (x / 4)
  {
    AndEven(x, 0x7E);
    AndEven(x / 2, 0x3F);
    AndSix(x / 2 / 2);
  }

  /** Masking with size - 1 is reduction modulo size, for every size the bit test accepts. */
  lemma MaskIsModulo(x: nat, size: nat)
    requires IsPowerOfTwo(size)
    ensures And(x, size - 1) == x % size
  {
    var k := PowerOfTwoExponent(size);
    AndMaskIsMod(x, k);
  }
}
