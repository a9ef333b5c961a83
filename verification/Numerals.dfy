/** Positional numerals: the ordinary reading of a digit string, decimal or hexadecimal. */
module Numerals {

  datatype Radix = Decimal | Hexadecimal {
    function Size(): nat { if Decimal? then 10 else 16 }

    function Times(v: nat): nat { if Decimal? then 10 * v else 16 * v }

    function Over(v: nat): (q: nat)
      ensures v >= Size() ==> 0 < q < v
    {
      if Decimal? then v / 10 else v / 16
    }

    function Rest(v: nat): nat { if Decimal? then v % 10 else v % 16 }
  }

  function Value(ds: seq<nat>, b: Radix): nat {
    if ds == [] then 0 else b.Times(Value(ds[..|ds| - 1], b)) + ds[|ds| - 1]
  }

  /** The digits of n, most significant first, by repeated division. */
  function Digits(n: nat, b: Radix): (ds: seq<nat>)
    ensures ds != []
  {
    if n < b.Size() then [n] else Digits(b.Over(n), b) + [b.Rest(n)]
  }

  /** ds is how n is written in base b: no digit too large, no leading zero. */
  ghost predicate Numeral(ds: seq<nat>, b: Radix, n: nat) {
    && ds != []
    && (forall j :: 0 <= j < |ds| ==> ds[j] < b.Size())
    && (|ds| > 1 ==> ds[0] != 0)
    && Value(ds, b) == n
  }

  lemma ValueSnoc(ds: seq<nat>, d: nat, b: Radix)
    ensures Value(ds + [d], b) == b.Times(Value(ds, b)) + d
  {
    assert (ds + [d])[..|ds|] == ds;
  }

  lemma {:induction false} ValuePositive(ds: seq<nat>, b: Radix)
    requires ds != [] && ds[0] != 0
    ensures Value(ds, b) > 0
  {
    if |ds| > 1 {
      ValuePositive(ds[..|ds| - 1], b);
    }
  }

  /** Every number has a numeral. */
  lemma {:induction false} DigitsNumeral(n: nat, b: Radix)
    ensures Numeral(Digits(n, b), b, n)
  {
    if n < b.Size() {
      assert [n][..0] == [];
    } else {
      var ds := Digits(b.Over(n), b);
      DigitsNumeral(b.Over(n), b);
      ValueSnoc(ds, b.Rest(n), b);
      if |ds| == 1 {
        assert ds[..0] == [] && Value(ds, b) == ds[0];
      }
    }
  }

  /** Dividing undoes appending a digit. */
  lemma Appended(v: nat, d: nat, b: Radix)
    requires d < b.Size()
    ensures b.Over(b.Times(v) + d) == v && b.Rest(b.Times(v) + d) == d
    ensures v > 0 ==> b.Times(v) + d >= b.Size()
  {
  }

  lemma DigitsAppend(v: nat, d: nat, b: Radix)
    requires d < b.Size()
    ensures Digits(b.Times(v) + d, b) == if v == 0 then [d] else Digits(v, b) + [d]
  {
    Appended(v, d, b);
  }

  /** And only one. */
  lemma {:induction false} NumeralUnique(ds: seq<nat>, b: Radix, n: nat)
    requires Numeral(ds, b, n)
    ensures ds == Digits(n, b)
    decreases |ds|
  {
    var init, last := ds[..|ds| - 1], ds[|ds| - 1];
    assert ds == init + [last];
    DigitsAppend(Value(init, b), last, b);
    if init != [] {
      ValuePositive(init, b);
      NumeralUnique(init, b, Value(init, b));
    }
  }

  function Power(b: Radix, k: nat): nat {
    if k == 0 then 1 else b.Times(Power(b, k - 1))
  }

  /** A number has at most k digits exactly when it is below the base to the k. */
  lemma {:induction false} DigitsLength(n: nat, b: Radix, k: nat)
    requires k >= 1
    ensures |Digits(n, b)| <= k <==> n < Power(b, k)
  {
    if k == 1 {
      assert Power(b, 1) == b.Times(Power(b, 0)) == b.Size();
    } else if n < b.Size() {
      PowerGrows(b, k);
    } else {
      DigitsLength(b.Over(n), b, k - 1);
    }
  }

  lemma {:induction false} PowerGrows(b: Radix, k: nat)
    requires k >= 1
    ensures Power(b, k) >= b.Size()
  {
    if k > 1 {
      PowerGrows(b, k - 1);
    } else {
      assert Power(b, 1) == b.Times(Power(b, 0)) == b.Size();
    }
  }
}
