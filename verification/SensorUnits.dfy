/** The unit conversions of include/sensor.h, in micro-units under C's truncating division. */
module SensorUnits {
  import opened CTypes

  type I64 = x: int | -0x8000_0000_0000_0000 <= x < 0x8000_0000_0000_0000

  const G := 9_806_650
  const PI := 3_141_592
  const MICRO := 1_000_000

  /** The range of Gs whose whole part in m/s^2 fits an int32_t, and of micro-radians whose
      degrees do. */
  const GREATEST_G := 218_982_389
  const LEAST_ANGLE := -37_480_652_501_435
  const GREATEST_ANGLE := 37_480_652_483_982

  /** C division and remainder, for a positive divisor. */
  function Div(a: int, b: int): int
    requires b > 0
  {
    if a >= 0 then a / b else -((-a) / b)
  }

  function Mod(a: int, b: int): int
    requires b > 0
  {
    if a >= 0 then a % b else -((-a) % b)
  }

  predicate Fits(x: int) { -0x8000_0000 <= x < 0x8000_0000 }

  /** Conversion to int32_t. */
  function Narrow(x: int): I32 { Signed32(x % 0x1_0000_0000) }

  datatype Kind = IntPlusMicro | Q16 | Double

  /** The values a sensor_value can express, in micro-units. */
  type Micros = m: int | -0x8000_0000 * 1_000_001 <= m <= 0x7FFF_FFFF * 1_000_001

  function Joined(val1: I32, val2: I32): Micros { val1 * MICRO + val2 }

  function Whole(m: I64): I32 { Narrow(Div(m, MICRO)) }

  function Part(m: I64): I32 { Narrow(Mod(m, MICRO)) }

  function MicroG(g: I32): I64 { g * G }

  function MicroRad(d: I32): I64 {
    var product: I64 := d * PI;
    Div(product, 180)
  }

  /** The quotient in whole units; every intermediate result fits an int64_t. */
  function InG(m: Micros): I32 {
    var biased: I64 := if m > 0 then m + G / 2 else m - G / 2;
    Div(biased, G)
  }

  function InDegrees(m: Micros): I64 {
    var biased: I64 := if m > 0 then m * 180 + PI / 2 else m * 180 - PI / 2;
    Div(biased, PI)
  }

  /** val1 and val2 are m in whole and micro units: the parts have its sign, the micro part
      is less than a unit, and the whole part is reduced modulo 2^32. */
  ghost predicate Represents(val1: I32, val2: I32, m: int) {
    && -MICRO < val2 < MICRO && (m >= 0 ==> val2 >= 0) && (m <= 0 ==> val2 <= 0)
    && (Joined(val1, val2) - m) % (MICRO * 0x1_0000_0000) == 0
  }

  lemma NarrowExact(x: int)
    ensures Narrow(x) == x <==> Fits(x)
  {
  }

  lemma NarrowCongruent(x: int)
    ensures (Narrow(x) - x) % 0x1_0000_0000 == 0
  {
    var q := x / 0x1_0000_0000;
    assert x == 0x1_0000_0000 * q + x % 0x1_0000_0000;
  }

  lemma SplitRepresents(m: I64)
    ensures Represents(Whole(m), Part(m), m)
  {
    var w := Div(m, MICRO);
    NarrowCongruent(w);
    NarrowExact(Mod(m, MICRO));
    var k := (Whole(m) - w) / 0x1_0000_0000;
    assert Whole(m) - w == 0x1_0000_0000 * k;
    assert m == w * MICRO + Mod(m, MICRO);
    assert Joined(Whole(m), Part(m)) - m == (MICRO * 0x1_0000_0000) * k;
  }

  /** q units are within half a unit of n, and a tie is rounded away from zero. */
  predicate NearestG(q: int, n: int) {
    if n > 0 then -G < 2 * (n - q * G) < G || 2 * (q * G - n) == G
    else -G < 2 * (n - q * G) < G || 2 * (n - q * G) == G
  }

  predicate NearestPi(q: int, n: int) {
    if n > 0 then -PI < 2 * (n - q * PI) < PI || 2 * (q * PI - n) == PI
    else -PI < 2 * (n - q * PI) < PI || 2 * (n - q * PI) == PI
  }

  /** Both back-conversions give the one nearest whole number of units. */
  lemma GIsNearest(m: Micros, q: int)
    ensures NearestG(q, m) <==> q == InG(m)
  {
  }

  lemma DegreesAreNearest(m: Micros, q: int)
    ensures NearestPi(q, 180 * m) <==> q == InDegrees(m)
  {
  }

  /** A micro value survives being split into val1 and val2 exactly when val1 fits. */
  lemma SplitExact(m: I64)
    ensures Joined(Whole(m), Part(m)) == m <==> Fits(Div(m, MICRO))
  {
    NarrowExact(Div(m, MICRO));
    NarrowExact(Mod(m, MICRO));
    assert m == Div(m, MICRO) * MICRO + Mod(m, MICRO);
  }

  lemma MicroRadClose(d: I32)
    ensures var m := MicroRad(d);
      && Fits(Div(m, MICRO))
      && (d > 0 ==> m > 0 && d * PI - 180 < 180 * m <= d * PI)
      && (d <= 0 ==> m <= 0 && d * PI <= 180 * m < d * PI + 180)
  {
  }

  /** The angles whose degrees fit an int32_t, in micro-radians. */
  lemma DegreesFit(m: Micros)
    ensures Fits(InDegrees(m)) <==> LEAST_ANGLE <= m <= GREATEST_ANGLE
  {
  }

  /** The degrees returned are the nearest exactly for those angles; any other is reduced
      modulo 2^32. */
  lemma DegreesReturned(m: Micros)
    ensures NearestPi(Narrow(InDegrees(m)), 180 * m) <==> LEAST_ANGLE <= m <= GREATEST_ANGLE
  {
    DegreesFit(m);
    DegreesAreNearest(m, Narrow(InDegrees(m)));
    NarrowExact(InDegrees(m));
  }

  /** The largest angle a sensor_value can hold is not returned as its nearest degrees. */
  lemma DegreesWrap()
    ensures var m: Micros := Joined(0x7FFF_FFFF, 0); !NearestPi(Narrow(InDegrees(m)), 180 * m)
  {
    DegreesReturned(Joined(0x7FFF_FFFF, 0));
  }

  lemma GFits(g: I32)
    ensures Fits(Div(MicroG(g), MICRO)) <==> -GREATEST_G <= g <= GREATEST_G
  {
  }

  lemma FarApart(d: int)
    requires d != 0 && d % (MICRO * 0x1_0000_0000) == 0
    ensures d >= MICRO * 0x1_0000_0000 || d <= -MICRO * 0x1_0000_0000
  {
  }

  lemma BackToDegrees(d: I32, m: Micros, r: I32)
    requires if d > 0 then d * PI - 180 < 180 * m <= d * PI else d * PI <= 180 * m < d * PI + 180
    requires NearestPi(r, 180 * m) <==> LEAST_ANGLE <= m <= GREATEST_ANGLE
    ensures r == d
  {
    assert NearestPi(d, 180 * m);
    DegreesFit(m);
    DegreesAreNearest(m, d);
    DegreesAreNearest(m, r);
  }

  lemma BackToG(g: I32, val1: I32, val2: I32, r: I32)
    requires Represents(val1, val2, MicroG(g)) && NearestG(r, Joined(val1, val2))
    requires Joined(val1, val2) == MicroG(g) <==> -GREATEST_G <= g <= GREATEST_G
    ensures r == g <==> -GREATEST_G <= g <= GREATEST_G
  {
    var m := Joined(val1, val2);
    if m == MicroG(g) {
      GIsNearest(m, g);
      GIsNearest(m, r);
    } else {
      FarApart(m - MicroG(g));
    }
  }

  /** struct sensor_value. */
  class SensorValue {
    var kind: Kind
    var val1: I32
    var val2: I32

    constructor ()
      ensures kind == IntPlusMicro && val1 == 0 && val2 == 0
    {
      kind, val1, val2 := IntPlusMicro, 0, 0;
    }

    function Micro(): Micros
      reads this
    {
      Joined(val1, val2)
    }

    /** sensor_g_to_ms2: the product, whole and micro part with its sign; exactly it up to
        218982389 either way, else it modulo 2^32 whole units. */
    method FromG(g: I32)
      modifies this
      ensures kind == IntPlusMicro && Represents(val1, val2, MicroG(g))
      ensures Micro() == MicroG(g) <==> -GREATEST_G <= g <= GREATEST_G
    {
      GFits(g);
      SplitRepresents(MicroG(g));
      SplitExact(MicroG(g));
      kind := IntPlusMicro;
      val1 := Narrow(Div(MicroG(g), MICRO));
      val2 := Narrow(Mod(MicroG(g), MICRO));
    }

    /** sensor_degrees_to_rad: always exact, to the micro-radian that truncation leaves. */
    method FromDegrees(d: I32)
      modifies this
      ensures kind == IntPlusMicro && Represents(val1, val2, MicroRad(d)) && Micro() == MicroRad(d)
      ensures if d > 0 then d * PI - 180 < 180 * Micro() <= d * PI else d * PI <= 180 * Micro() < d * PI + 180
    {
      SplitRepresents(MicroRad(d));
      SplitExact(MicroRad(d));
      MicroRadClose(d);
      kind := IntPlusMicro;
      val1 := Narrow(Div(MicroRad(d), MICRO));
      val2 := Narrow(Mod(MicroRad(d), MICRO));
    }

    /** sensor_ms2_to_g: the nearest whole number of Gs. */
    method ToG() returns (g: I32)
      ensures NearestG(g, Micro())
    {
      GIsNearest(Micro(), InG(Micro()));
      NarrowExact(InG(Micro()));
      var m: I64 := val1 * MICRO + val2;
      var biased: I64 := if m > 0 then m + G / 2 else m - G / 2;
      assert Div(biased, G) == InG(Micro());
      g := Narrow(Div(biased, G));
    }

    /** sensor_rad_to_degrees: the nearest whole number of degrees exactly for the angles at
        which it fits, else that number modulo 2^32. */
    method ToDegrees() returns (d: I32)
      ensures NearestPi(d, 180 * Micro()) <==> LEAST_ANGLE <= Micro() <= GREATEST_ANGLE
      ensures exists q: int :: NearestPi(q, 180 * Micro()) && (d - q) % 0x1_0000_0000 == 0
    {
      DegreesReturned(Micro());
      DegreesAreNearest(Micro(), InDegrees(Micro()));
      NarrowCongruent(InDegrees(Micro()));
      var m: I64 := val1 * MICRO + val2;
      var biased: I64 := if m > 0 then m * 180 + PI / 2 else m * 180 - PI / 2;
      d := Narrow(Div(biased, PI));
    }
  }

  /** Degrees to radians and back, through a sensor_value: the identity on every int32_t. */
  method DegreesThereAndBack(d: I32) returns (r: I32)
    ensures r == d
  {
    var v := new SensorValue();
    v.FromDegrees(d);
    r := v.ToDegrees();
    BackToDegrees(d, v.Micro(), r);
  }

  /** Gs to m/s^2 and back, through a sensor_value: the identity exactly up to 218982389
      either way, where the whole part of m/s^2 fits an int32_t. */
  method GThereAndBack(g: I32) returns (r: I32)
    ensures r == g <==> -GREATEST_G <= g <= GREATEST_G
  {
    var v := new SensorValue();
    v.FromG(g);
    r := v.ToG();
    BackToG(g, v.val1, v.val2, r);
  }
}
